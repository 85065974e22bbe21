/**
 * String helpers the handlers rely on: Rust's `str::trim` and the first item of
 * `str::split(sep)`. Strings are `seq<char>`.
 */
module Strings {

  /** ASCII white space (space, tab, line feed, vertical tab, form feed, carriage return). */
  predicate IsSpace(c: char) {
    c == ' ' || c == '\t' || c == '\n' || c == '\U{0B}' || c == '\U{0C}' || c == '\r'
  }

  predicate AllSpace(s: string) {
    forall i :: 0 <= i < |s| ==> IsSpace(s[i])
  }

  /** The index of the first character at or after `i` that is not white space, or `|s|`. */
  function SkipSpace(s: string, i: nat): (n: nat)
    requires i <= |s|
    ensures i <= n <= |s|
    ensures forall j :: i <= j < n ==> IsSpace(s[j])
    ensures n == |s| || !IsSpace(s[n])
    decreases |s| - i
  {
    if i < |s| && IsSpace(s[i]) then SkipSpace(s, i + 1) else i
  }

  /** The end of `s[lo..hi]` once its trailing white space is dropped. */
  function DropTrailingSpace(s: string, lo: nat, hi: nat): (n: nat)
    requires lo <= hi <= |s|
    ensures lo <= n <= hi
    ensures forall j :: n <= j < hi ==> IsSpace(s[j])
    ensures n == lo || !IsSpace(s[n - 1])
  {
    if lo < hi && IsSpace(s[hi - 1]) then DropTrailingSpace(s, lo, hi - 1) else hi
  }

  /** Number of leading white-space characters of `s`. */
  function LeadingSpace(s: string): (n: nat)
    ensures n <= |s| && AllSpace(s[..n])
    ensures n == |s| || !IsSpace(s[n])
  {
    SkipSpace(s, 0)
  }

  /**
   * Rust's `str::trim`: the piece of `s` starting after its leading white space
   * that neither starts nor ends with white space, everything dropped around it
   * being white space.
   */
  function Trim(s: string): (r: string)
    ensures r == [] || (!IsSpace(r[0]) && !IsSpace(r[|r| - 1]))
    ensures r == [] <==> AllSpace(s)
    ensures LeadingSpace(s) + |r| <= |s| && s[LeadingSpace(s)..LeadingSpace(s) + |r|] == r
    ensures AllSpace(s[..LeadingSpace(s)]) && AllSpace(s[LeadingSpace(s) + |r|..])
  {
    var lo := LeadingSpace(s);
    var hi := DropTrailingSpace(s, lo, |s|);
    assert AllSpace(s[hi..]) by {
      forall j | 0 <= j < |s| - hi ensures IsSpace(s[hi..][j]) {
        assert s[hi..][j] == s[hi + j];
      }
    }
    assert hi == lo ==> AllSpace(s) by {
      if hi == lo {
        AllSpaceJoin(s, lo);
      }
    }
    s[lo..hi]
  }

  /** Two white-space pieces make a white-space string. */
  lemma AllSpaceJoin(s: string, i: nat)
    requires i <= |s| && AllSpace(s[..i]) && AllSpace(s[i..])
    ensures AllSpace(s)
  {
    forall j | 0 <= j < |s| ensures IsSpace(s[j]) {
      if j < i {
        assert s[..i][j] == s[j];
      } else {
        assert s[i..][j - i] == s[j];
      }
    }
  }

  /** Trimming is idempotent. */
  lemma {:induction false} TrimIdempotent(s: string)
    ensures Trim(Trim(s)) == Trim(s)
  {
    TrimFixesTrimmed(Trim(s));
  }

  /** A string that neither starts nor ends with white space is its own trim. */
  lemma TrimFixesTrimmed(r: string)
    requires r == [] || (!IsSpace(r[0]) && !IsSpace(r[|r| - 1]))
    ensures Trim(r) == r
  {
    assert LeadingSpace(r) == 0;
    assert DropTrailingSpace(r, 0, |r|) == |r|;
    assert r[0..|r|] == r;
  }

  /** Trimming adds no character: one absent from `s` is absent from its trim. */
  lemma TrimKeepsAbsent(s: string, c: char)
    requires c !in s
    ensures c !in Trim(s)
  {
    var r := Trim(s);
    var lead := LeadingSpace(s);
    forall k | 0 <= k < |r| ensures r[k] != c {
      assert r[k] == s[lead..lead + |r|][k] == s[lead + k];
    }
  }

  /**
   * The first item that `s.split(sep)` yields: everything before the first
   * `sep`, or all of `s` when it has none. (Rust's split always yields at least
   * one item, possibly empty.)
   */
  function FirstField(s: string, sep: char): (r: string)
    ensures r <= s && sep !in r
    ensures |r| == |s| || s[|r|] == sep
  {
    if s == [] || s[0] == sep then [] else [s[0]] + FirstField(s[1..], sep)
  }

  /** Rust's `str::split(sep)`, collected: the pieces of `s` between the separators. */
  function Split(s: string, sep: char): (r: seq<string>)
    ensures |r| >= 1 && r[0] == FirstField(s, sep)
    ensures forall i :: 0 <= i < |r| ==> sep !in r[i]
    decreases |s|
  {
    var f := FirstField(s, sep);
    if |f| == |s| then [s] else [f] + Split(s[|f| + 1..], sep)
  }

  /** A piece `a` free of the separator, followed by the separator, splits off as the first item. */
  lemma {:induction false} SplitAfterField(a: string, sep: char, b: string)
    requires sep !in a
    ensures Split(a + [sep] + b, sep) == [a] + Split(b, sep)
  {
    FirstFieldOfField(a, sep, [sep] + b);
    assert a + [sep] + b == a + ([sep] + b);
    assert (a + [sep] + b)[|a| + 1..] == b;
  }

  /** A string without the separator splits into itself alone. */
  lemma SplitWithoutSep(a: string, sep: char)
    requires sep !in a
    ensures Split(a, sep) == [a]
  {
    FirstFieldOfField(a, sep, []);
    assert a + [] == a;
  }

  lemma {:induction false} FirstFieldOfField(a: string, sep: char, rest: string)
    requires sep !in a
    requires rest == [] || rest[0] == sep
    ensures FirstField(a + rest, sep) == a
  {
    if a != [] {
      assert (a + rest)[0] == a[0];
      assert (a + rest)[1..] == a[1..] + rest;
      FirstFieldOfField(a[1..], sep, rest);
    }
  }

  /** The pieces joined back together with `sep` between them. */
  function Join(parts: seq<string>, sep: char): string
  {
    if parts == [] then []
    else if |parts| == 1 then parts[0]
    else parts[0] + [sep] + Join(parts[1..], sep)
  }

  /** Joining the pieces of a split with the same separator gives the string back. */
  lemma {:induction false} JoinSplit(s: string, sep: char)
    ensures Join(Split(s, sep), sep) == s
    decreases |s|
  {
    var f := FirstField(s, sep);
    if |f| < |s| {
      var rest := s[|f| + 1..];
      JoinSplit(rest, sep);
      var parts := Split(s, sep);
      assert parts == [f] + Split(rest, sep);
      assert parts[0] == f && parts[1..] == Split(rest, sep) && |parts| >= 2;
      assert Join(parts, sep) == f + [sep] + rest;
      assert s[..|f|] == f && s[|f|] == sep;
      SplitAt(s, |f|);
    }
  }

  /** Splitting pieces free of `sep`, joined with `sep`, gives the pieces back. */
  lemma {:induction false} SplitJoin(parts: seq<string>, sep: char)
    requires |parts| >= 1 && forall i :: 0 <= i < |parts| ==> sep !in parts[i]
    ensures Split(Join(parts, sep), sep) == parts
    decreases |parts|
  {
    if |parts| == 1 {
      SplitWithoutSep(parts[0], sep);
    } else {
      SplitJoin(parts[1..], sep);
      SplitAfterField(parts[0], sep, Join(parts[1..], sep));
      assert [parts[0]] + parts[1..] == parts;
    }
  }

  lemma SplitAt<T>(s: seq<T>, i: nat)
    requires i < |s|
    ensures s == s[..i] + [s[i]] + s[i + 1..]
  {
  }
}

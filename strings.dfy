/** The pieces of Python's `str` behaviour the script relies on, restricted to ASCII:
    the character classes of `\s` and `\w`, `str.strip()`, `str.split()` and joining
    with single spaces. */
module Strings {

  /** Python's `\s` and `str.isspace()` on ASCII: space, \t, \n, \v, \f, \r and the
      four information separators U+001C to U+001F. */
  predicate IsSpace(c: char) {
    c == ' ' || ('\t' <= c <= '\r') || ('\U{1C}' <= c <= '\U{1F}')
  }

  /** Python's `\w` on ASCII: letters, digits and the underscore. */
  predicate IsWordChar(c: char) {
    ('a' <= c <= 'z') || ('A' <= c <= 'Z') || ('0' <= c <= '9') || c == '_'
  }

  predicate IsUpper(c: char) {
    'A' <= c <= 'Z'
  }

  predicate AllSpace(s: string) {
    forall i :: 0 <= i < |s| ==> IsSpace(s[i])
  }

  predicate NoSpace(s: string) {
    forall i :: 0 <= i < |s| ==> !IsSpace(s[i])
  }

  /** The characters of `s` that are not whitespace, in order. */
  function NonSpace(s: string): string {
    if s == [] then [] else (if IsSpace(s[0]) then [] else [s[0]]) + NonSpace(s[1..])
  }

  /** Leading whitespace contributes nothing to `NonSpace`. */
  lemma {:induction false} NonSpaceSkipsSpaces(s: string, n: nat)
    requires n <= |s|
    requires forall i :: 0 <= i < n ==> IsSpace(s[i])
    ensures NonSpace(s) == NonSpace(s[n..])
    decreases n
  {
    if n > 0 {
      assert s[1..][n - 1..] == s[n..];
      NonSpaceSkipsSpaces(s[1..], n - 1);
    }
  }

  /** Length of the run of whitespace that starts `s`. */
  function LeadingSpaces(s: string): (n: nat)
    ensures n <= |s|
    ensures forall i :: 0 <= i < n ==> IsSpace(s[i])
    ensures n < |s| ==> !IsSpace(s[n])
  {
    if s == [] || !IsSpace(s[0]) then 0 else 1 + LeadingSpaces(s[1..])
  }

  /** Length of the run of non-whitespace that starts `s`. */
  function LeadingNonSpaces(s: string): (n: nat)
    ensures n <= |s|
    ensures forall i :: 0 <= i < n ==> !IsSpace(s[i])
    ensures n < |s| ==> IsSpace(s[n])
  {
    if s == [] || IsSpace(s[0]) then 0 else 1 + LeadingNonSpaces(s[1..])
  }

  /** `s` without its trailing whitespace. */
  function StripRight(s: string): (r: string)
    ensures |r| <= |s| && r == s[..|r|]
    ensures AllSpace(s[|r|..])
    ensures r == [] || !IsSpace(r[|r| - 1])
  {
    if s != [] && IsSpace(s[|s| - 1]) then
      var r := StripRight(s[..|s| - 1]);
      assert AllSpace(s[|r|..]) by {
        forall k | |r| <= k < |s| ensures IsSpace(s[k]) {
          if k < |s| - 1 {
            assert s[k] == s[..|s| - 1][|r|..][k - |r|];
          }
        }
      }
      r
    else s
  }

  /** Python's `str.strip()`: the slice of `s` left after removing leading and trailing
      whitespace. */
  function Strip(s: string): (r: string)
    ensures r == [] || (!IsSpace(r[0]) && !IsSpace(r[|r| - 1]))
    ensures exists i, j :: 0 <= i <= j <= |s| && r == s[i..j] && AllSpace(s[..i]) && AllSpace(s[j..])
  {
    var i := LeadingSpaces(s);
    var r := StripRight(s[i..]);
    assert r == s[i..i + |r|] && s[i..][|r|..] == s[i + |r|..];
    r
  }

  /** Python's `str.split()` with no separator: the maximal runs of non-whitespace,
      left to right. */
  function Split(s: string): (ts: seq<string>)
    ensures forall k :: 0 <= k < |ts| ==> ts[k] != [] && NoSpace(ts[k])
    ensures ts == [] <==> AllSpace(s)
    decreases |s|
  {
    var i := LeadingSpaces(s);
    var t := s[i..];
    if t == [] then []
    else
      var n := LeadingNonSpaces(t);
      assert !IsSpace(s[i]) && t[0] == s[i];
      var rest := Split(t[n..]);
      TokenCons(t[..n], rest);
      [t[..n]] + rest
  }

  /** A token in front of a list of tokens gives a list of tokens. */
  lemma {:induction false} TokenCons(w: string, rest: seq<string>)
    requires w != [] && NoSpace(w)
    requires forall k :: 0 <= k < |rest| ==> rest[k] != [] && NoSpace(rest[k])
    ensures forall k :: 0 <= k < |[w] + rest| ==> ([w] + rest)[k] != [] && NoSpace(([w] + rest)[k])
  {
    forall k | 0 <= k < |[w] + rest|
      ensures ([w] + rest)[k] != [] && NoSpace(([w] + rest)[k])
    {
      if k > 0 {
        assert ([w] + rest)[k] == rest[k - 1];
      }
    }
  }

  /** Joins `ts` with single spaces, as `" ".join(ts)` does. */
  function Join(ts: seq<string>): string {
    if ts == [] then ""
    else if |ts| == 1 then ts[0]
    else ts[0] + " " + Join(ts[1..])
  }

  /** A word of `Split`: non-empty and free of whitespace. */
  predicate IsToken(t: string) {
    t != [] && NoSpace(t)
  }

  lemma {:induction false} SplitSkipsLeadingSpace(u: string, t: string)
    requires AllSpace(u)
    requires t == [] || !IsSpace(t[0])
    ensures Split(u + t) == Split(t)
  {
    var s := u + t;
    assert LeadingSpaces(s) == |u| by {
      if |u| < |s| { assert s[|u|] == t[0]; }
    }
    assert s[|u|..] == t;
    assert LeadingSpaces(t) == 0;
    assert t[0..] == t;
  }

  /** Splitting a single-space join gives the tokens back. */
  lemma {:induction false} SplitJoin(ts: seq<string>)
    requires forall k :: 0 <= k < |ts| ==> IsToken(ts[k])
    ensures Split(Join(ts)) == ts
  {
    if ts == [] {
    } else if |ts| == 1 {
      SplitToken(ts[0], "");
      assert ts[0] + "" == ts[0];
    } else {
      TokensTail(ts);
      SplitJoin(ts[1..]);
      JoinStartsWithToken(ts[1..]);
      SplitJoinStep(ts[0], Join(ts[1..]), ts[1..]);
      JoinCons(ts);
    }
  }

  lemma {:induction false} TokensTail(ts: seq<string>)
    requires ts != []
    requires forall k :: 0 <= k < |ts| ==> IsToken(ts[k])
    ensures IsToken(ts[0]) && forall k :: 0 <= k < |ts[1..]| ==> IsToken(ts[1..][k])
    ensures ts == [ts[0]] + ts[1..]
  {
    forall k | 0 <= k < |ts[1..]| ensures IsToken(ts[1..][k]) {
      assert ts[1..][k] == ts[k + 1];
    }
  }

  /** Putting a token in front of a non-empty list joins it with one space. */
  lemma {:induction false} JoinTokenCons(t: string, ts: seq<string>)
    requires ts != []
    ensures Join([t] + ts) == t + " " + Join(ts)
  {
    assert ([t] + ts)[1..] == ts;
  }

  lemma {:induction false} JoinCons(ts: seq<string>)
    requires |ts| >= 2
    ensures Join(ts) == ts[0] + (" " + Join(ts[1..]))
  {
    assert ts[0] + " " + Join(ts[1..]) == ts[0] + (" " + Join(ts[1..]));
  }

  /** One step of `SplitJoin`: a token put in front of a join is split off again. */
  lemma {:induction false} SplitJoinStep(t: string, j: string, rest: seq<string>)
    requires IsToken(t)
    requires j == [] || !IsSpace(j[0])
    requires Split(j) == rest
    ensures Split(t + (" " + j)) == [t] + rest
  {
    SplitToken(t, " " + j);
    SplitSkipsLeadingSpace(" ", j);
  }

  /** A token followed by nothing or by whitespace is the first word of the split. */
  lemma {:induction false} SplitToken(t: string, rest: string)
    requires IsToken(t)
    requires rest == [] || IsSpace(rest[0])
    ensures Split(t + rest) == [t] + Split(rest)
  {
    var s := t + rest;
    assert LeadingSpaces(s) == 0;
    assert s[0..] == s;
    assert LeadingNonSpaces(s) == |t| by {
      LeadingNonSpacesOfToken(t, rest);
    }
    assert s[..|t|] == t && s[|t|..] == rest;
  }

  lemma {:induction false} LeadingNonSpacesOfToken(t: string, rest: string)
    requires NoSpace(t)
    requires rest == [] || IsSpace(rest[0])
    ensures LeadingNonSpaces(t + rest) == |t|
    decreases |t|
  {
    if t != [] {
      assert (t + rest)[1..] == t[1..] + rest;
      LeadingNonSpacesOfToken(t[1..], rest);
    } else {
      assert t + rest == rest;
    }
  }

  lemma {:induction false} JoinStartsWithToken(ts: seq<string>)
    requires forall k :: 0 <= k < |ts| ==> IsToken(ts[k])
    ensures Join(ts) == [] || !IsSpace(Join(ts)[0])
    ensures ts != [] ==> Join(ts) != [] && Join(ts)[0] == ts[0][0]
  {
  }

  /** Splitting ignores leading whitespace. */
  lemma {:induction false} SplitAfterSpaces(s: string)
    ensures Split(s) == Split(s[LeadingSpaces(s)..])
  {
    var t := s[LeadingSpaces(s)..];
    assert LeadingSpaces(t) == 0;
    assert t[0..] == t;
  }

  /** A leading whitespace character does not change the split. */
  lemma {:induction false} SplitDropSpace(x: string)
    requires x != [] && IsSpace(x[0])
    ensures Split(x) == Split(x[1..])
  {
    SplitAfterSpaces(x);
    SplitAfterSpaces(x[1..]);
    assert LeadingSpaces(x) == 1 + LeadingSpaces(x[1..]);
    assert x[1..][LeadingSpaces(x[1..])..] == x[LeadingSpaces(x)..];
  }

  /** All-whitespace text strips to the empty string. */
  lemma {:induction false} StripAllSpace(s: string)
    requires AllSpace(s)
    ensures Strip(s) == []
  {
    var i, j :| 0 <= i <= j <= |s| && Strip(s) == s[i..j];
  }

  /** Trailing whitespace after a text that ends in non-whitespace is all `StripRight`
      removes. */
  lemma {:induction false} StripRightAllSpace(w: string, x: string)
    requires w == [] || !IsSpace(w[|w| - 1])
    requires AllSpace(x)
    ensures StripRight(w + x) == w
    decreases |x|
  {
    if x == [] {
      assert w + x == w;
    } else {
      assert (w + x)[..|w + x| - 1] == w + x[..|x| - 1];
      StripRightAllSpace(w, x[..|x| - 1]);
    }
  }

  /** `StripRight` only looks at the end: a prefix in front of a text that is not all
      whitespace is kept. */
  lemma {:induction false} StripRightAppend(p: string, x: string)
    requires !AllSpace(x)
    ensures StripRight(p + x) == p + StripRight(x)
    decreases |x|
  {
    if IsSpace(x[|x| - 1]) {
      assert (p + x)[..|p + x| - 1] == p + x[..|x| - 1];
      assert !AllSpace(x[..|x| - 1]) by {
        var k :| 0 <= k < |x| && !IsSpace(x[k]);
        assert x[..|x| - 1][k] == x[k];
      }
      StripRightAppend(p, x[..|x| - 1]);
    }
  }

  /** On a text that starts with non-whitespace, possibly after one extra space,
      `Strip` is `StripRight`. */
  lemma {:induction false} StripFromNonSpace(x: string)
    requires x == [] || !IsSpace(x[0])
    ensures Strip(x) == StripRight(x)
    ensures Strip(" " + x) == StripRight(x)
  {
    assert LeadingSpaces(x) == 0;
    assert x[0..] == x;
    assert (" " + x)[1..] == x;
    assert LeadingSpaces(" " + x) == 1;
    assert (" " + x)[1..] == x;
  }

  /** Number of occurrences of `c` in `s`. */
  function Occurrences(s: string, c: char): (n: nat)
    ensures n <= |s|
  {
    if s == [] then 0 else (if s[0] == c then 1 else 0) + Occurrences(s[1..], c)
  }

  lemma {:induction false} OccurrencesAppend(a: string, b: string, c: char)
    ensures Occurrences(a + b, c) == Occurrences(a, c) + Occurrences(b, c)
  {
    if a == [] {
      assert a + b == b;
    } else {
      assert (a + b)[1..] == a[1..] + b;
      OccurrencesAppend(a[1..], b, c);
    }
  }

  /** The first token of a string that does not start with whitespace is its leading
      run of non-whitespace. */
  lemma {:induction false} SplitFirst(s: string)
    requires s != [] && !IsSpace(s[0])
    ensures Split(s) != [] && Split(s)[0] == s[..LeadingNonSpaces(s)]
  {
    assert LeadingSpaces(s) == 0;
    assert s[0..] == s;
  }

  /** A text that starts with non-whitespace splits into its first run and the split of
      what follows. */
  lemma {:induction false} SplitFirstToken(x: string, w: string, rest: string)
    requires x != [] && !IsSpace(x[0])
    requires w == x[..LeadingNonSpaces(x)] && rest == x[LeadingNonSpaces(x)..]
    ensures Split(x) == [w] + Split(rest)
  {
    assert x == w + rest;
    SplitToken(w, rest);
  }

  /** `t` ends `s`, and it is either all of `s` or follows a whitespace character. */
  predicate TrailingRun(s: string, t: string) {
    |t| <= |s| && s[|s| - |t|..] == t && (|t| == |s| || IsSpace(s[|s| - |t| - 1]))
  }

  /** The last token of a string that ends in non-whitespace is its trailing run of
      non-whitespace. */
  lemma {:induction false} SplitLast(s: string)
    requires s != [] && !IsSpace(s[|s| - 1])
    ensures Split(s) != [] && TrailingRun(s, Split(s)[|Split(s)| - 1])
  {
    var i := LeadingSpaces(s);
    var x := s[i..];
    SplitAfterSpaces(s);
    assert x[|x| - 1] == s[|s| - 1];
    SplitLastFrom(x);
    assert i > 0 ==> IsSpace(s[i - 1]);
    TrailingRunTransfer(s, i, x, Split(x)[|Split(x)| - 1]);
  }

  /** `SplitLast` for a string that starts with non-whitespace, by induction on its
      tokens. */
  lemma {:induction false} SplitLastFrom(x: string)
    requires x != [] && !IsSpace(x[0]) && !IsSpace(x[|x| - 1])
    ensures Split(x) != [] && TrailingRun(x, Split(x)[|Split(x)| - 1])
    decreases |x|, 1
  {
    var n := LeadingNonSpaces(x);
    var rest := x[n..];
    SplitFirstToken(x, x[..n], rest);
    if n == |x| {
      assert rest == [] && x[..n] == x;
    } else {
      SplitLastAfterToken(x, n, rest);
    }
  }

  /** The inductive step of `SplitLastFrom`: the last token lies in what follows the
      first token and the whitespace after it. */
  lemma {:induction false} SplitLastAfterToken(x: string, n: nat, rest: string)
    requires x != [] && !IsSpace(x[|x| - 1])
    requires 0 < n < |x| && rest == x[n..] && IsSpace(x[n])
    requires Split(x) == [x[..n]] + Split(rest)
    ensures Split(x) != [] && TrailingRun(x, Split(x)[|Split(x)| - 1])
    decreases |x|, 0
  {
    var l := LeadingSpaces(rest);
    var y := rest[l..];
    SplitAfterSpaces(rest);
    AfterSpaces(x, n, l);
    SplitLastFrom(y);
    var t := Split(y)[|Split(y)| - 1];
    LastOfCons(Split(x), x[..n], Split(y));
    TrailingRunTransfer(rest, l, y, t);
    TrailingRunWithin(x, n, t);
  }

  /** What follows a token and a maximal run of whitespace starts and ends with
      non-whitespace. */
  lemma {:induction false} AfterSpaces(x: string, n: nat, l: nat)
    requires 0 < n < |x| && IsSpace(x[n]) && !IsSpace(x[|x| - 1])
    requires l == LeadingSpaces(x[n..])
    ensures 1 <= l && n + l < |x| && IsSpace(x[n..][l - 1])
    ensures x[n..][l..] != [] && !IsSpace(x[n..][l..][0])
    ensures !IsSpace(x[n..][l..][|x[n..][l..]| - 1])
  {
    var rest := x[n..];
    assert rest[0] == x[n];
    assert rest[|rest| - 1] == x[|x| - 1];
  }

  lemma {:induction false} LastOfCons(ts: seq<string>, w: string, us: seq<string>)
    requires us != [] && ts == [w] + us
    ensures ts[|ts| - 1] == us[|us| - 1]
  {
  }

  /** A trailing run of a suffix that is shorter than the suffix is one of the whole. */
  lemma {:induction false} TrailingRunWithin(s: string, m: nat, t: string)
    requires m <= |s| && TrailingRun(s[m..], t) && |t| < |s| - m
    ensures TrailingRun(s, t)
  {
    var k := |s| - m - |t|;
    SuffixOfSlice(s, m, k);
    assert s[m + k - 1] == s[m..][k - 1];
  }

  /** A trailing run of a suffix that follows whitespace is a trailing run of the
      whole. */
  lemma {:induction false} TrailingRunTransfer(s: string, m: nat, y: string, t: string)
    requires m <= |s| && y == s[m..]
    requires m == 0 || IsSpace(s[m - 1])
    requires TrailingRun(y, t)
    ensures TrailingRun(s, t)
  {
    var k := |y| - |t|;
    assert |s| - |t| == m + k;
    SuffixOfSlice(s, m, k);
    if k > 0 {
      assert s[m + k - 1] == y[k - 1];
    }
  }

  lemma {:induction false} SuffixOfSlice(s: string, m: nat, k: nat)
    requires m + k <= |s|
    ensures s[m..][k..] == s[m + k..]
  {
  }

  /** A string without surrounding whitespace is one token exactly when it has no
      whitespace at all. */
  lemma {:induction false} SplitSingle(s: string)
    requires s != [] && !IsSpace(s[0]) && !IsSpace(s[|s| - 1])
    ensures |Split(s)| == 1 <==> NoSpace(s)
  {
    var n := LeadingNonSpaces(s);
    var rest := s[n..];
    SplitFirstToken(s, s[..n], rest);
    if n < |s| {
      assert !NoSpace(s) by { assert IsSpace(s[n]); }
      assert Split(rest) != [] by {
        assert rest[|rest| - 1] == s[|s| - 1];
      }
    } else {
      assert NoSpace(s);
      assert Split(rest) == [] by { assert rest == []; }
    }
  }
}

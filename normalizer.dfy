/** `normalize_nome`: lower-case a name, delete the Portuguese connector words
    "de", "da", "do", "das", "dos" where they stand as whole words, collapse runs of
    whitespace to one space and strip the ends. Character classes are ASCII. */
module NameNormalizer {
  import opened Wrappers
  import opened Strings

  /** The alternatives of the regular expression `\b(de|da|do|das|dos)\b`, in the order
      the regex engine tries them. */
  const Connectors: seq<string> := ["de", "da", "do", "das", "dos"]

  // ---------------------------------------------------------------- lower-casing

  function LowerChar(c: char): char {
    if IsUpper(c) then (c as int + 32) as char else c
  }

  /** `str.lower()` on ASCII letters; every other character is kept. */
  function Lower(s: string): (r: string)
    ensures |r| == |s|
    ensures forall i :: 0 <= i < |r| ==> !IsUpper(r[i])
    ensures forall i :: 0 <= i < |s| && !IsUpper(s[i]) ==> r[i] == s[i]
    ensures forall i :: 0 <= i < |s| && IsUpper(s[i]) ==> r[i] as int == s[i] as int + 32
  {
    seq(|s|, i requires 0 <= i < |s| => LowerChar(s[i]))
  }

  // ---------------------------------------------------- the connector substitution

  /** Python's `\b` at position `i`: exactly one of the characters around it is a word
      character. */
  predicate AtBoundary(s: string, i: int)
    requires 0 <= i <= |s|
  {
    (i > 0 && IsWordChar(s[i - 1])) != (i < |s| && IsWordChar(s[i]))
  }

  /** The alternation `(w1|w2|...)\b` tried at position `i`: the length matched by the
      first alternative that occurs there and is followed by a word boundary. */
  function MatchAlternatives(s: string, i: nat, alts: seq<string>): (r: Option<nat>)
    requires i <= |s|
    requires forall k :: 0 <= k < |alts| ==> alts[k] != []
    ensures r.Some? ==> 0 < r.value && i + r.value <= |s|
  {
    if alts == [] then None
    else
      var w := alts[0];
      if OccursAt(s, i, w) && AtBoundary(s, i + |w|) then Some(|w|)
      else MatchAlternatives(s, i, alts[1..])
  }

  /** `w` occurs in `s` at position `i`. */
  predicate OccursAt(s: string, i: nat, w: string) {
    i + |w| <= |s| && forall j :: 0 <= j < |w| ==> s[i + j] == w[j]
  }

  /** The whole pattern `\b(de|da|do|das|dos)\b` tried at position `i`: a match starts
      at a word boundary and is a non-empty stretch of `s`. */
  function ConnectorAt(s: string, i: nat): (r: Option<nat>)
    requires i <= |s|
    ensures r.Some? ==> AtBoundary(s, i) && 0 < r.value && i + r.value <= |s|
  {
    if AtBoundary(s, i) then MatchAlternatives(s, i, Connectors) else None
  }

  /** `re.sub(r"\b(de|da|do|das|dos)\b", "", s)` from position `i` on: the scan tries
      the pattern at each position of the original string, drops a match and resumes
      after it, and otherwise copies one character. */
  function RemoveConnectorsFrom(s: string, i: nat): string
    requires i <= |s|
    decreases |s| - i
  {
    if i == |s| then []
    else match ConnectorAt(s, i)
      case Some(n) => RemoveConnectorsFrom(s, i + n)
      case None => [s[i]] + RemoveConnectorsFrom(s, i + 1)
  }

  /** `re.sub(r"\b(de|da|do|das|dos)\b", "", s)`: the text's pieces with the connector
      words taken out, put back together, so every other character keeps its place
      beside the words it was beside; no whole word of the result is a connector;
      exactly the connector words go and every other word stays, in order, whatever
      characters separate them; only word characters are deleted, so every other
      character is kept in order; on text made of words and whitespace the same holds
      for the whitespace-separated tokens; and a text in which the pattern matches
      nowhere comes back unchanged. */
  function RemoveConnectors(s: string): (r: string)
    ensures r == Concat(DropConnectors(Segments(s)))
    ensures CleanFrom(r, false)
    ensures Words(r) == DropConnectors(Words(s))
    ensures NonWord(r) == NonWord(s)
    ensures WordTokens(s) ==> Split(r) == DropConnectors(Split(s))
    ensures NoConnectorWord(s) ==> r == s
  {
    assert s[0..] == s;
    RemoveConnectorsClean(s, 0);
    KeptSegmentsFrom(s, 0);
    KeptWordsFrom(s, 0);
    KeptNonWordFrom(s, 0);
    assert WordTokens(s) ==> Split(RemoveConnectorsFrom(s, 0)) == DropConnectors(Split(s[0..])) by {
      if WordTokens(s) {
        KeptTokensFrom(s, 0);
      }
    }
    assert NoConnectorWord(s) ==> RemoveConnectorsFrom(s, 0) == s by {
      if NoConnectorWord(s) {
        RemoveConnectorsNoMatch(s, 0);
        assert s[0..] == s;
      }
    }
    RemoveConnectorsFrom(s, 0)
  }

  // ------------------------------------------------------------ whitespace

  /** `re.sub(r"\s+", " ", s)`: every run of whitespace becomes one space. */
  function CollapseSpaces(s: string): (r: string)
    ensures s == [] <==> r == []
    ensures r != [] ==> (IsSpace(r[0]) <==> IsSpace(s[0]))
    ensures forall k :: 0 <= k < |r| && IsSpace(r[k]) ==> r[k] == ' '
    ensures forall k :: 0 <= k < |r| - 1 ==> !IsSpace(r[k]) || !IsSpace(r[k + 1])
    ensures forall k :: 0 <= k < |r| ==> r[k] == ' ' || r[k] in s
    ensures NonSpace(r) == NonSpace(s)
    decreases |s|
  {
    if s == [] then []
    else if IsSpace(s[0]) then
      var rest := CollapseSpaces(s[LeadingSpaces(s)..]);
      NonSpaceSkipsSpaces(s, LeadingSpaces(s));
      assert ([' '] + rest)[1..] == rest;
      [' '] + rest
    else
      var rest := CollapseSpaces(s[1..]);
      assert ([s[0]] + rest)[1..] == rest;
      [s[0]] + rest
  }

  /** One step of `CollapseSpaces` at a non-whitespace character. */
  lemma {:induction false} CollapseAtNonSpace(s: string)
    requires s != [] && !IsSpace(s[0])
    ensures CollapseSpaces(s) == [s[0]] + CollapseSpaces(s[1..])
  {
  }

  /** One step of `CollapseSpaces` at a run of whitespace. */
  lemma {:induction false} CollapseAtSpace(s: string)
    requires s != [] && IsSpace(s[0])
    ensures CollapseSpaces(s) == " " + CollapseSpaces(s[LeadingSpaces(s)..])
  {
  }

  /** Collapsing whitespace keeps a leading run of non-whitespace as it is. */
  lemma {:induction false} CollapseAfterWord(w: string, rest: string)
    requires NoSpace(w)
    ensures CollapseSpaces(w + rest) == w + CollapseSpaces(rest)
    decreases |w|
  {
    if w == [] {
      assert w + rest == rest;
    } else {
      var s := w + rest;
      assert s[0] == w[0] && s[1..] == w[1..] + rest;
      assert CollapseSpaces(s[1..]) == w[1..] + CollapseSpaces(rest) by {
        assert NoSpace(w[1..]) by {
          forall k | 0 <= k < |w[1..]| ensures !IsSpace(w[1..][k]) {
            assert w[1..][k] == w[k + 1];
          }
        }
        CollapseAfterWord(w[1..], rest);
      }
      CollapseAtNonSpace(s);
      HeadTailAppend(w, CollapseSpaces(rest));
    }
  }

  lemma {:induction false} HeadTailAppend(w: string, x: string)
    requires w != []
    ensures [w[0]] + (w[1..] + x) == w + x
  {
  }

  lemma {:induction false} SpaceAppend(w: string, x: string)
    ensures (w + " ") + x == w + (" " + x)
  {
  }

  /** Collapsing all-whitespace text leaves only whitespace. */
  lemma {:induction false} CollapseAllSpace(s: string)
    requires AllSpace(s)
    ensures AllSpace(CollapseSpaces(s))
  {
    var r := CollapseSpaces(s);
    forall k | 0 <= k < |r| ensures IsSpace(r[k]) {
      if r[k] in s {
        var j :| 0 <= j < |s| && s[j] == r[k];
      }
    }
  }

  /** Collapsing whitespace runs changes none of the whitespace-separated tokens:
      no run disappears and none is added. */
  lemma {:induction false} SplitCollapse(s: string)
    ensures Split(CollapseSpaces(s)) == Split(s)
    decreases |s|
  {
    if s == [] {
    } else if IsSpace(s[0]) {
      var t := s[LeadingSpaces(s)..];
      var c := CollapseSpaces(t);
      CollapseAtSpace(s);
      SplitCollapse(t);
      SplitAfterSpaces(s);
      assert (" " + c)[1..] == c;
      SplitDropSpace(" " + c);
    } else {
      var n := LeadingNonSpaces(s);
      var w, rest := s[..n], s[n..];
      assert s == w + rest;
      assert IsToken(w);
      CollapseAfterWord(w, rest);
      SplitToken(w, rest);
      SplitToken(w, CollapseSpaces(rest));
      SplitCollapse(rest);
    }
  }

  /** Joining the tokens of `str.split()` with single spaces gives the text with its
      whitespace runs collapsed to one space and its ends stripped; together with
      `SplitJoin`, `str.split()` loses exactly the whitespace layout. */
  lemma {:induction false} JoinSplit(s: string)
    ensures Join(Split(s)) == Strip(CollapseSpaces(s))
  {
    var t := s[LeadingSpaces(s)..];
    SplitAfterSpaces(s);
    JoinSplitFrom(t);
    StripFromNonSpace(CollapseSpaces(t));
    if s != [] && IsSpace(s[0]) {
      CollapseAtSpace(s);
    } else {
      assert t == s[0..] == s;
    }
  }

  /** `JoinSplit` for a text that does not start with whitespace, by induction on its
      tokens. */
  lemma {:induction false} JoinSplitFrom(t: string)
    requires t == [] || !IsSpace(t[0])
    ensures Join(Split(t)) == StripRight(CollapseSpaces(t))
    decreases |t|, 1
  {
    if t != [] {
      var n := LeadingNonSpaces(t);
      var w, rest := t[..n], t[n..];
      assert t == w + rest;
      SplitToken(w, rest);
      CollapseAfterWord(w, rest);
      if AllSpace(rest) {
        CollapseAllSpace(rest);
        StripRightAllSpace(w, CollapseSpaces(rest));
      } else {
        JoinSplitTail(w, rest, rest[LeadingSpaces(rest)..]);
      }
    }
  }

  /** The inductive step of `JoinSplitFrom`: a token, whitespace, then more tokens. */
  lemma {:induction false} JoinSplitTail(w: string, rest: string, t2: string)
    requires IsToken(w) && !AllSpace(rest) && IsSpace(rest[0])
    requires t2 == rest[LeadingSpaces(rest)..]
    requires CollapseSpaces(w + rest) == w + CollapseSpaces(rest)
    requires Split(w + rest) == [w] + Split(rest)
    ensures Join(Split(w + rest)) == StripRight(CollapseSpaces(w + rest))
    decreases |w + rest|, 0
  {
    assert Split(rest) == Split(t2) by { SplitAfterSpaces(rest); }
    assert CollapseSpaces(rest) == " " + CollapseSpaces(t2) by { CollapseAtSpace(rest); }
    assert t2 != [] && !IsSpace(t2[0]) && Split(t2) != [];
    var c := CollapseSpaces(t2);
    assert Join(Split(t2)) == StripRight(c) by {
      JoinSplitFrom(t2);
    }
    assert !AllSpace(c) by {
      assert c != [] && !IsSpace(c[0]);
    }
    calc {
      Join(Split(w + rest));
      Join([w] + Split(t2));
      { JoinTokenCons(w, Split(t2)); }
      w + " " + Join(Split(t2));
      (w + " ") + StripRight(c);
      { StripRightAppend(w + " ", c); }
      StripRight((w + " ") + c);
      { SpaceAppend(w, c); }
      StripRight(CollapseSpaces(w + rest));
    }
  }

  /** `normalize_nome`. What it returns is the lower-cased name with its connector
      words taken out and everything else left in place, split on whitespace and
      joined by single spaces; so it is lower-case, single-spaced and free of
      standalone connector words; its words are those of the lower-cased name without
      the connector words, in order, so "Ana-Maria da Silva" keeps "ana", "maria" and
      "silva"; and for a name made of words and whitespace it is the lower-cased tokens
      without the connector words, joined by single spaces, so "Ana da Silva" becomes
      "ana silva" and "Daniela", which only begins with "da", is kept whole. */
  function Normalize(nome: string): (r: string)
    ensures IsLowerCase(r)
    ensures SingleSpaced(r)
    ensures NoConnectorWord(r)
    ensures Words(r) == DropConnectors(Words(Lower(nome)))
    ensures r == Join(Split(Concat(DropConnectors(Segments(Lower(nome))))))
    ensures WordTokens(nome) ==> r == Join(DropConnectors(Split(Lower(nome))))
  {
    var l := Lower(nome);
    var c := RemoveConnectors(l);
    var w := CollapseSpaces(c);
    CleanupShape(l, c, w);
    CleanupContent(nome, l, c, w);
    Strip(w)
  }

  /** What the whitespace clean-up leaves of the substitution's output: its words, and
      the substitution's pieces split on whitespace and joined by single spaces. */
  lemma {:induction false} CleanupContent(nome: string, l: string, c: string, w: string)
    requires l == Lower(nome) && c == RemoveConnectors(l) && w == CollapseSpaces(c)
    ensures Words(Strip(w)) == DropConnectors(Words(l))
    ensures Strip(w) == Join(Split(Concat(DropConnectors(Segments(l)))))
    ensures WordTokens(nome) ==> Strip(w) == Join(DropConnectors(Split(l)))
  {
    assert Words(Strip(w)) == Words(c) by { WordsCleanup(c); }
    assert Strip(w) == Join(Split(c)) by { JoinSplit(c); }
    LowerKeepsWordTokens(nome);
  }

  lemma {:induction false} LowerKeepsWordTokens(nome: string)
    ensures WordTokens(nome) ==> WordTokens(Lower(nome))
  {
  }

  /** The whitespace clean-up of lower-case text without connector words gives
      lower-case, single-spaced text without connector words. */
  lemma {:induction false} CleanupShape(l: string, c: string, w: string)
    requires IsLowerCase(l) && c == RemoveConnectors(l) && w == CollapseSpaces(c)
    ensures IsLowerCase(Strip(w)) && SingleSpaced(Strip(w)) && NoConnectorWord(Strip(w))
  {
    RemoveConnectorsLowerCase(l, 0);
    StripKeepsLowerCase(w);
    StripSingleSpaced(w);
    CollapseKeepsClean(c, false);
    StripKeepsClean(w);
    CleanHasNoConnector(Strip(w), 0);
  }

  // ------------------------------------------------------------ properties

  predicate IsLowerCase(s: string) {
    forall i :: 0 <= i < |s| ==> !IsUpper(s[i])
  }

  /** Words are separated by exactly one plain space and nothing pads the ends. */
  predicate SingleSpaced(s: string) {
    && (s == [] || (!IsSpace(s[0]) && !IsSpace(s[|s| - 1])))
    && (forall k :: 0 <= k < |s| && IsSpace(s[k]) ==> s[k] == ' ')
    && (forall k :: 0 <= k < |s| - 1 ==> !IsSpace(s[k]) || !IsSpace(s[k + 1]))
  }

  /** The connector pattern matches nowhere in `s`. */
  predicate NoConnectorWord(s: string) {
    forall i :: 0 <= i <= |s| ==> ConnectorAt(s, i).None?
  }

  /** `normalize_nome` is idempotent. */
  lemma {:induction false} NormalizeIdempotent(nome: string)
    ensures Normalize(Normalize(nome)) == Normalize(nome)
  {
    NormalizeOfWellFormed(Normalize(nome));
  }

  /** A name that is already lower-case, single-spaced and free of connector words is
      its own normal form: normalising changes nothing but case, connector words and
      whitespace layout. */
  lemma {:induction false} NormalizeOfWellFormed(s: string)
    requires IsLowerCase(s) && SingleSpaced(s) && NoConnectorWord(s)
    ensures Normalize(s) == s
  {
    LowerOfLowerCase(s);
    RemoveConnectorsNoMatch(s, 0);
    assert s[0..] == s;
    CollapseOfSingleSpaced(s);
    StripOfSingleSpaced(s);
  }

  /** Every token of `ts` is a connector word. */
  predicate AllConnectors(ts: seq<string>) {
    AllIn(ts, Connectors)
  }

  /** Every element of `ts` lies in `ws`. */
  predicate AllIn(ts: seq<string>, ws: seq<string>) {
    forall k :: 0 <= k < |ts| ==> ts[k] in ws
  }

  /** A name whose whitespace-separated tokens are all connector words, such as
      "De  da dos", normalises to the empty string. */
  lemma {:induction false} NormalizeConnectorsOnly(nome: string)
    requires AllConnectors(Split(Lower(nome)))
    ensures Normalize(nome) == []
  {
    var l := Lower(nome);
    assert l[0..] == l;
    RemoveOnlyConnectors(l, 0);
    CollapseAllSpace(RemoveConnectors(l));
    StripAllSpace(CollapseSpaces(RemoveConnectors(l)));
  }

  /** The first token of a split of connector words is one, and so are the others. */
  lemma {:induction false} SplitConnectorsTail(x: string, w: string, rest: string)
    requires x != [] && !IsSpace(x[0])
    requires w == x[..LeadingNonSpaces(x)] && rest == x[LeadingNonSpaces(x)..]
    requires AllConnectors(Split(x))
    ensures w in Connectors && AllConnectors(Split(rest))
  {
    SplitFirstToken(x, w, rest);
    AllInTail(Split(x), w, Split(rest), Connectors);
  }

  /** When every element of `[w] + rest` lies in `ws`, so do `w` and those of `rest`. */
  lemma {:induction false} AllInTail(ts: seq<string>, w: string, rest: seq<string>, ws: seq<string>)
    requires ts == [w] + rest
    requires forall k :: 0 <= k < |ts| ==> ts[k] in ws
    ensures w in ws && forall k :: 0 <= k < |rest| ==> rest[k] in ws
  {
    assert ts[0] == w;
    forall k | 0 <= k < |rest| ensures rest[k] in ws {
      assert rest[k] == ts[k + 1];
    }
  }

  /** Position `i` is not inside a run of non-whitespace. */
  predicate AtTokenBoundary(s: string, i: nat)
    requires i <= |s|
  {
    i == 0 || i == |s| || IsSpace(s[i - 1]) || IsSpace(s[i])
  }

  /** The scan of `RemoveConnectorsFrom` over text whose tokens are all connector
      words, from a position outside any word: it copies the whitespace and drops every
      word, so only whitespace is left. */
  lemma {:induction false} RemoveOnlyConnectors(s: string, i: nat)
    requires i <= |s|
    requires AtTokenBoundary(s, i)
    requires AllConnectors(Split(s[i..]))
    ensures AllSpace(RemoveConnectorsFrom(s, i))
    decreases |s| - i, 1
  {
    if i < |s| {
      if IsSpace(s[i]) {
        RemoveOnlyConnectorsAtSpace(s, i);
      } else {
        RemoveOnlyConnectorsAtWord(s, i);
      }
    }
  }

  /** `RemoveOnlyConnectors` at a whitespace character, which is copied. */
  lemma {:induction false} RemoveOnlyConnectorsAtSpace(s: string, i: nat)
    requires i < |s| && IsSpace(s[i])
    requires AllConnectors(Split(s[i..]))
    ensures AllSpace(RemoveConnectorsFrom(s, i))
    decreases |s| - i, 0
  {
    SpaceCopied(s, i);
    RemoveOnlyConnectors(s, i + 1);
    ConsSpace(s[i], RemoveConnectorsFrom(s, i + 1), RemoveConnectorsFrom(s, i));
  }

  /** `RemoveOnlyConnectors` at the start of a connector word, which is dropped. */
  lemma {:induction false} RemoveOnlyConnectorsAtWord(s: string, i: nat)
    requires i < |s| && !IsSpace(s[i])
    requires AtTokenBoundary(s, i)
    requires AllConnectors(Split(s[i..]))
    ensures AllSpace(RemoveConnectorsFrom(s, i))
    decreases |s| - i, 0
  {
    var n := ConnectorWordMatched(s, i);
    var j := ConnectorWordRest(s, i, n);
    RemoveOnlyConnectors(s, j);
    DropKeepsAllSpace(s, i, n, j);
  }

  lemma {:induction false} ConsSpace(c: char, x: string, y: string)
    requires IsSpace(c) && AllSpace(x) && y == [c] + x
    ensures AllSpace(y)
  {
    forall k | 0 <= k < |y| ensures IsSpace(y[k]) {
      if k > 0 {
        assert y[k] == x[k - 1];
      }
    }
  }

  /** A whitespace character is copied, and the tokens after it are still connector
      words. */
  lemma {:induction false} SpaceCopied(s: string, i: nat)
    requires i < |s| && IsSpace(s[i])
    requires AllConnectors(Split(s[i..]))
    ensures AllConnectors(Split(s[i + 1..]))
    ensures RemoveConnectorsFrom(s, i) == [s[i]] + RemoveConnectorsFrom(s, i + 1)
  {
    assert AllConnectors(Split(s[i + 1..])) by {
      SplitDropSpace(s[i..]);
      assert s[i..][1..] == s[i + 1..];
    }
    assert ConnectorAt(s, i).None? by { NoConnectorAtNonWord(s, i); }
    ScanKeeps(s, i);
  }

  /** Where the pattern drops a match, whitespace-only output after it stays
      whitespace-only. */
  lemma {:induction false} DropKeepsAllSpace(s: string, i: nat, n: nat, j: nat)
    requires i < |s| && ConnectorAt(s, i) == Some(n) && j == i + n
    requires j <= |s| && AllSpace(RemoveConnectorsFrom(s, j))
    ensures AllSpace(RemoveConnectorsFrom(s, i))
  {
    ScanDrops(s, i, n);
    SameAllSpace(RemoveConnectorsFrom(s, j), RemoveConnectorsFrom(s, i));
  }

  lemma {:induction false} SameAllSpace(x: string, y: string)
    requires AllSpace(x) && x == y
    ensures AllSpace(y)
  {
  }

  /** After a connector word the position is again outside any word, and the tokens
      after it are still connector words. */
  lemma {:induction false} ConnectorWordRest(s: string, i: nat, n: nat) returns (j: nat)
    requires i < |s| && !IsSpace(s[i])
    requires AllConnectors(Split(s[i..]))
    requires n == LeadingNonSpaces(s[i..])
    ensures j == i + n && i < j <= |s|
    ensures AtTokenBoundary(s, j)
    ensures AllConnectors(Split(s[j..]))
  {
    var x := s[i..];
    j := i + n;
    assert s[j..] == x[n..];
    SplitConnectorsTail(x, x[..n], x[n..]);
    if j < |s| {
      assert s[j] == x[n];
    }
  }

  /** At the start of a whitespace-delimited connector word the pattern matches the
      whole run of non-whitespace. */
  lemma {:induction false} ConnectorWordMatched(s: string, i: nat) returns (n: nat)
    requires i < |s| && !IsSpace(s[i])
    requires AtTokenBoundary(s, i)
    requires AllConnectors(Split(s[i..]))
    ensures n == LeadingNonSpaces(s[i..]) && ConnectorAt(s, i) == Some(n)
  {
    assert i == 0 || IsSpace(s[i - 1]);
    var x := s[i..];
    n := LeadingNonSpaces(x);
    var w := x[..n];
    assert w in Connectors by {
      SplitConnectorsTail(x, w, x[n..]);
    }
    assert WordAt(x) == w by {
      assert AllWordChars(w) by {
        ConnectorsAreWords();
        var k :| 0 <= k < |Connectors| && Connectors[k] == w;
      }
      forall k | 0 <= k < n ensures IsWordChar(x[k]) {
        assert x[k] == w[k];
      }
      WordLenBounded(x, n);
    }
    ConnectorAtWordStart(s, i);
  }

  // -------------------------------------------------- what the substitution keeps

  /** Every character of `s` is whitespace or a word character, so each of its
      whitespace-separated tokens is one whole `\w` word. */
  predicate WordTokens(s: string) {
    forall k :: 0 <= k < |s| ==> IsSpace(s[k]) || IsWordChar(s[k])
  }

  /** The tokens of `ts` that are not connector words, in their order. */
  function DropConnectors(ts: seq<string>): (r: seq<string>)
    ensures forall k :: 0 <= k < |r| ==> r[k] in ts && r[k] !in Connectors
    ensures forall t :: t in ts && t !in Connectors ==> t in r
  {
    if ts == [] then []
    else
      var rest := DropConnectors(ts[1..]);
      assert forall t :: t in ts[1..] ==> t in ts;
      assert forall t :: t in ts ==> t == ts[0] || t in ts[1..];
      (if ts[0] in Connectors then [] else [ts[0]]) + rest
  }

  /** A name normalises to a non-empty name unless every word of it is a connector
      word, whatever separates the words; with `NormalizeConnectorsOnly`, a name made of
      words and whitespace normalises to the empty string exactly when all its words are
      connector words. */
  lemma {:induction false} NormalizeNonEmpty(nome: string)
    requires !AllConnectors(Words(Lower(nome)))
    ensures Normalize(nome) != []
  {
    var ws := Words(Lower(nome));
    var k :| 0 <= k < |ws| && ws[k] !in Connectors;
    assert ws[k] in ws;
    assert Words(Normalize(nome)) != [];
  }

  /** A worked example: the connector "da" is dropped, while "Daniela", which only
      begins with the letters of "da", is kept whole. */
  lemma {:induction false} NormalizeDanielaDaSilva()
    ensures Normalize("Daniela da Silva") == "daniela silva"
  {
    var ts := DanielaDaSilvaWords();
    NormalizeOfTokens("Daniela da Silva", ts, "daniela silva");
  }

  /** A hyphenated name such as "Ana-Maria da Silva" becomes "ana-maria silva":
      whatever the three lower-case words around the hyphen and the connector, the
      connector goes, the hyphen stays where it was, and one space is left. */
  lemma {:induction false} NormalizeHyphenated(a: string, m: string, z: string)
    requires a != [] && AllWordChars(a) && IsLowerCase(a) && a !in Connectors
    requires m != [] && AllWordChars(m) && IsLowerCase(m) && m !in Connectors
    requires z != [] && AllWordChars(z) && IsLowerCase(z) && z !in Connectors
    ensures Normalize(a + "-" + m + " da " + z) == a + "-" + m + " " + z
  {
    var t := " da " + z;
    var x := a + ("-" + (m + t));
    var y := a + ("-" + m);
    HyphenatedLower(a, m, z, t, x);
    LowerOfLowerCase(x);
    assert t == " " + ("da" + (" " + z)) by { SpaceDaSpace(z, t, " " + z); }
    assert "da" in Connectors && AllWordChars("da");
    HyphenatedKept(a, m, "da", z, t, x);
    HyphenatedToken(a, m, y);
    HyphenatedSplit(y, z);
    HyphenatedReassoc(a, m, z, t, x, y);
  }

  lemma {:induction false} HyphenatedLower(a: string, m: string, z: string, t: string, x: string)
    requires IsLowerCase(a) && IsLowerCase(m) && IsLowerCase(z)
    requires t == " da " + z && x == a + ("-" + (m + t))
    ensures IsLowerCase(x)
  {
    LowerCaseDa(z, t);
    LowerCaseAppend(m, t);
    LowerCaseAppend("-", m + t);
    LowerCaseAppend(a, "-" + (m + t));
  }

  /** A word followed by a non-word character or the end is the first piece. */
  lemma {:induction false} SegmentsOfWord(w: string, x: string)
    requires w != [] && AllWordChars(w)
    requires x == [] || !IsWordChar(x[0])
    ensures Segments(w + x) == [w] + Segments(x)
  {
    WordAtPrefix(w, x);
    WordLenBounded(w + x, |w|);
    assert (w + x)[|w|..] == x;
  }

  /** A non-word character in front is a piece of its own. */
  lemma {:induction false} SegmentsCons(c: char, t: string)
    requires !IsWordChar(c)
    ensures Segments([c] + t) == [[c]] + Segments(t)
  {
    assert ([c] + t)[1..] == t;
  }

  /** What the substitution keeps of a word that is not a connector, followed by a
      non-word character or the end: the word. */
  lemma {:induction false} KeptPiecesWord(w: string, x: string)
    requires w != [] && AllWordChars(w) && w !in Connectors
    requires x == [] || !IsWordChar(x[0])
    ensures Concat(DropConnectors(Segments(w + x))) == w + Concat(DropConnectors(Segments(x)))
  {
    SegmentsOfWord(w, x);
    DropConnectorsCons(w, Segments(x));
    ConcatCons(w, DropConnectors(Segments(x)));
  }

  /** What the substitution keeps of a connector word followed by a non-word character
      or the end: nothing. */
  lemma {:induction false} KeptPiecesConnector(w: string, x: string)
    requires w != [] && AllWordChars(w) && w in Connectors
    requires x == [] || !IsWordChar(x[0])
    ensures Concat(DropConnectors(Segments(w + x))) == Concat(DropConnectors(Segments(x)))
  {
    SegmentsOfWord(w, x);
    DropConnectorsCons(w, Segments(x));
    assert [] + DropConnectors(Segments(x)) == DropConnectors(Segments(x));
  }

  /** What the substitution keeps of a non-word character: the character. */
  lemma {:induction false} KeptPiecesNonWord(c: char, t: string)
    requires !IsWordChar(c)
    ensures Concat(DropConnectors(Segments([c] + t))) == [c] + Concat(DropConnectors(Segments(t)))
  {
    SegmentsCons(c, t);
    NonWordNotConnector(c);
    DropConnectorsCons([c], Segments(t));
    ConcatCons([c], DropConnectors(Segments(t)));
  }

  /** What the substitution keeps of a last word that is not a connector: the word. */
  lemma {:induction false} KeptPiecesLast(z: string)
    requires z != [] && AllWordChars(z) && z !in Connectors
    ensures Concat(DropConnectors(Segments(z))) == z
  {
    assert z + [] == z;
    KeptPiecesWord(z, []);
    assert Concat(DropConnectors(Segments([]))) == [];
  }

  /** What the substitution keeps of `a-m d z` for a connector `d`. */
  lemma {:induction false} HyphenatedKept(a: string, m: string, d: string, z: string, t: string, x: string)
    requires a != [] && AllWordChars(a) && a !in Connectors
    requires m != [] && AllWordChars(m) && m !in Connectors
    requires d != [] && AllWordChars(d) && d in Connectors
    requires z != [] && AllWordChars(z) && z !in Connectors
    requires t == " " + (d + (" " + z)) && x == a + ("-" + (m + t))
    ensures Concat(DropConnectors(Segments(x))) == a + ("-" + (m + (" " + (" " + z))))
  {
    var kt := Concat(DropConnectors(Segments(t)));
    assert kt == " " + (" " + z) by { ConnectorKept(d, z, t); }
    var km := Concat(DropConnectors(Segments(m + t)));
    assert km == m + kt by { KeptPiecesWord(m, t); }
    var kh := Concat(DropConnectors(Segments("-" + (m + t))));
    assert kh == "-" + km by { KeptPiecesNonWord('-', m + t); }
    assert Concat(DropConnectors(Segments(x))) == a + kh by { KeptPiecesWord(a, "-" + (m + t)); }
  }

  /** What the substitution keeps of ` d z` for a connector `d`. */
  lemma {:induction false} ConnectorKept(d: string, z: string, t: string)
    requires d != [] && AllWordChars(d) && d in Connectors
    requires z != [] && AllWordChars(z) && z !in Connectors
    requires t == " " + (d + (" " + z))
    ensures Concat(DropConnectors(Segments(t))) == " " + (" " + z)
  {
    var u := " " + z;
    var kz := Concat(DropConnectors(Segments(z)));
    assert kz == z by { KeptPiecesLast(z); }
    var ku := Concat(DropConnectors(Segments(u)));
    assert ku == " " + kz by { KeptPiecesNonWord(' ', z); }
    var kd := Concat(DropConnectors(Segments(d + u)));
    assert kd == ku by { KeptPiecesConnector(d, u); }
    assert Concat(DropConnectors(Segments(t))) == " " + kd by { KeptPiecesNonWord(' ', d + u); }
  }

  /** `a-m` is one whitespace-free token. */
  lemma {:induction false} HyphenatedToken(a: string, m: string, y: string)
    requires a != [] && AllWordChars(a) && AllWordChars(m) && y == a + ("-" + m)
    ensures IsToken(y)
  {
    forall k | 0 <= k < |y| ensures !IsSpace(y[k]) {
      if k < |a| {
        assert y[k] == a[k];
      } else if k > |a| {
        assert y[k] == m[k - |a| - 1];
      }
    }
  }

  lemma {:induction false} HyphenatedSplit(y: string, z: string)
    requires IsToken(y) && z != [] && AllWordChars(z)
    ensures Join(Split(y + ("  " + z))) == y + (" " + z)
  {
    var v := "  " + z;
    assert !IsSpace(z[0]) && AllSpace("  ");
    SplitAfterSpaceRun("  ", z, v);
    SplitToken(y, v);
    JoinPair(y, z);
  }

  /** A run of whitespace followed by one token splits into that token. */
  lemma {:induction false} SplitAfterSpaceRun(u: string, z: string, v: string)
    requires u != [] && AllSpace(u) && IsToken(z) && v == u + z
    ensures v != [] && IsSpace(v[0])
    ensures Split(v) == [z]
  {
    assert v[0] == u[0];
    SplitSkipsLeadingSpace(u, z);
    SplitOneToken(z);
  }

  lemma {:induction false} SplitOneToken(z: string)
    requires IsToken(z)
    ensures Split(z) == [z]
  {
    assert z + [] == z;
    SplitToken(z, []);
  }

  lemma {:induction false} JoinPair(y: string, z: string)
    ensures Join([y] + [z]) == y + (" " + z)
  {
    var ts := [y] + [z];
    assert ts[1..] == [z];
  }

  lemma {:induction false} HyphenatedReassoc(a: string, m: string, z: string, t: string, x: string, y: string)
    requires t == " da " + z && x == a + ("-" + (m + t)) && y == a + ("-" + m)
    ensures a + "-" + m + " da " + z == x
    ensures a + "-" + m + " " + z == y + (" " + z)
    ensures a + ("-" + (m + (" " + (" " + z)))) == y + ("  " + z)
  {
  }

  lemma {:induction false} LowerCaseAppend(x: string, y: string)
    requires IsLowerCase(x) && IsLowerCase(y)
    ensures IsLowerCase(x + y)
  {
    forall k | 0 <= k < |x + y| ensures !IsUpper((x + y)[k]) {
      if k < |x| {
        assert (x + y)[k] == x[k];
      } else {
        assert (x + y)[k] == y[k - |x|];
      }
    }
  }

  lemma {:induction false} LowerCaseDa(z: string, t: string)
    requires t == " da " + z
    ensures IsLowerCase(t) <==> IsLowerCase(z)
  {
    assert forall k :: 0 <= k < |z| ==> t[k + 4] == z[k];
    assert forall k :: 4 <= k < |t| ==> t[k] == z[k - 4];
  }

  lemma {:induction false} SpaceDaSpace(z: string, t: string, u: string)
    requires t == " da " + z && u == " " + z
    ensures t == " " + ("da" + u)
  {
  }

  /** The words of the example, lower-cased, and what dropping connectors leaves. */
  lemma {:induction false} DanielaDaSilvaWords() returns (ts: seq<string>)
    ensures forall k :: 0 <= k < |ts| ==> ts[k] != [] && AllWordChars(ts[k])
    ensures Lower("Daniela da Silva") == Join(ts)
    ensures Join(DropConnectors(ts)) == "daniela silva"
  {
    ts := ["daniela", "da", "silva"];
    DanielaDaSilvaLower();
    DanielaDaSilvaDrop();
    LiteralWords(ts);
  }

  lemma {:induction false} DanielaDaSilvaLower()
    ensures Lower("Daniela da Silva") == Join(["daniela", "da", "silva"])
  {
    assert Lower("Daniela da Silva") == "daniela da silva";
  }

  lemma {:induction false} DanielaDaSilvaDrop()
    ensures Join(DropConnectors(["daniela", "da", "silva"])) == "daniela silva"
  {
    DanielaDaSilvaKept();
    assert Join(["daniela", "silva"]) == "daniela silva";
  }

  lemma {:induction false} DanielaDaSilvaKept()
    ensures DropConnectors(["daniela", "da", "silva"]) == ["daniela", "silva"]
  {
    DropConnectorsCons("daniela", ["da", "silva"]);
    DropConnectorsCons("da", ["silva"]);
    DropConnectorsCons("silva", []);
  }

  lemma {:induction false} LiteralWords(ts: seq<string>)
    requires ts == ["daniela", "da", "silva"]
    ensures forall k :: 0 <= k < |ts| ==> ts[k] != [] && AllWordChars(ts[k])
  {
    assert AllWordChars("daniela") && AllWordChars("da") && AllWordChars("silva");
  }

  /** `Normalize` on a name whose lower-cased form is the single-space join of
      the given words. */
  lemma {:induction false} NormalizeOfTokens(nome: string, ts: seq<string>, r: string)
    requires forall k :: 0 <= k < |ts| ==> ts[k] != [] && AllWordChars(ts[k])
    requires Lower(nome) == Join(ts) && Join(DropConnectors(ts)) == r
    ensures Normalize(nome) == r
  {
    WordTokensOfJoin(ts);
    forall k | 0 <= k < |nome| ensures IsSpace(nome[k]) || IsWordChar(nome[k]) {
      assert IsSpace(Lower(nome)[k]) || IsWordChar(Lower(nome)[k]);
    }
    SplitJoin(ts);
  }

  /** Joining words with single spaces gives text made of words and whitespace. */
  lemma {:induction false} WordTokensOfJoin(ts: seq<string>)
    requires forall k :: 0 <= k < |ts| ==> AllWordChars(ts[k])
    ensures WordTokens(Join(ts))
  {
    if |ts| > 1 {
      assert forall k :: 0 <= k < |ts[1..]| ==> AllWordChars(ts[1..][k]) by {
        forall k | 0 <= k < |ts[1..]| ensures AllWordChars(ts[1..][k]) {
          assert ts[1..][k] == ts[k + 1];
        }
      }
      WordTokensOfJoin(ts[1..]);
      assert AllWordChars(ts[0]);
      var j := Join(ts);
      assert j == ts[0] + " " + Join(ts[1..]);
      forall k | 0 <= k < |j| ensures IsSpace(j[k]) || IsWordChar(j[k]) {
        if k < |ts[0]| {
          assert j[k] == ts[0][k];
        } else if k > |ts[0]| {
          assert j[k] == Join(ts[1..])[k - |ts[0]| - 1];
        }
      }
    } else if |ts| == 1 {
      assert AllWordChars(ts[0]);
    }
  }

  /** On text made of words and whitespace, the substitution run from a position
      outside any word keeps exactly the tokens that are not connector words. */
  lemma {:induction false} KeptTokensFrom(s: string, i: nat)
    requires i <= |s| && WordTokens(s) && AtTokenBoundary(s, i)
    ensures Split(RemoveConnectorsFrom(s, i)) == DropConnectors(Split(s[i..]))
    decreases |s| - i, 1
  {
    if i == |s| {
      assert s[i..] == [];
    } else if IsSpace(s[i]) {
      KeptTokensAtSpace(s, i);
    } else {
      KeptTokensAtWord(s, i);
    }
  }

  /** `KeptTokensFrom` at a whitespace character, which is copied. */
  lemma {:induction false} KeptTokensAtSpace(s: string, i: nat)
    requires i < |s| && IsSpace(s[i]) && WordTokens(s)
    ensures Split(RemoveConnectorsFrom(s, i)) == DropConnectors(Split(s[i..]))
    decreases |s| - i, 0
  {
    assert Split(s[i..]) == Split(s[i + 1..]) by {
      SplitDropSpace(s[i..]);
      assert s[i..][1..] == s[i + 1..];
    }
    assert ConnectorAt(s, i).None? by { NoConnectorAtNonWord(s, i); }
    ScanKeeps(s, i);
    KeptTokensFrom(s, i + 1);
    SplitConsSpace(s[i], RemoveConnectorsFrom(s, i + 1), RemoveConnectorsFrom(s, i));
  }

  lemma {:induction false} SplitConsSpace(c: char, x: string, y: string)
    requires IsSpace(c) && y == [c] + x
    ensures Split(y) == Split(x)
  {
    SplitDropSpace(y);
    assert y[1..] == x;
  }

  /** `KeptTokensFrom` at the start of a word, which is dropped when it is a connector
      and copied whole otherwise. */
  lemma {:induction false} KeptTokensAtWord(s: string, i: nat)
    requires i < |s| && !IsSpace(s[i]) && WordTokens(s) && AtTokenBoundary(s, i)
    ensures Split(RemoveConnectorsFrom(s, i)) == DropConnectors(Split(s[i..]))
    decreases |s| - i, 0
  {
    var e := WordEnd(s, i);
    var w := s[i..e];
    KeptTokensFrom(s, e);
    DropConnectorsCons(w, Split(s[e..]));
    if w in Connectors {
      ScanDropsWord(s, i, e);
    } else {
      KeptWordCopied(s, i, e);
      ResumeAtSpace(s, e);
      SplitToken(w, RemoveConnectorsFrom(s, e));
    }
  }

  lemma {:induction false} DropConnectorsCons(w: string, ts: seq<string>)
    ensures DropConnectors([w] + ts) == (if w in Connectors then [] else [w]) + DropConnectors(ts)
  {
    assert ([w] + ts)[1..] == ts;
  }

  /** `ScanDrops` for a match that ends at `e`. */
  lemma {:induction false} ScanDropsWord(s: string, i: nat, e: nat)
    requires i < e <= |s| && ConnectorAt(s, i) == Some(e - i)
    ensures RemoveConnectorsFrom(s, i) == RemoveConnectorsFrom(s, e)
  {
    ScanDrops(s, i, e - i);
  }

  /** Output that resumes at whitespace or at the end starts with whitespace. */
  lemma {:induction false} ResumeAtSpace(s: string, e: nat)
    requires e <= |s| && (e == |s| || IsSpace(s[e]))
    ensures RemoveConnectorsFrom(s, e) == [] || IsSpace(RemoveConnectorsFrom(s, e)[0])
  {
    if e < |s| {
      NoConnectorAtNonWord(s, e);
      ScanKeeps(s, e);
    }
  }

  /** The word that starts at a token boundary of text made of words and whitespace is
      its first token, and the pattern matches there exactly when that word is a
      connector. */
  lemma {:induction false} WordEnd(s: string, i: nat) returns (e: nat)
    requires i < |s| && !IsSpace(s[i]) && WordTokens(s) && AtTokenBoundary(s, i)
    ensures i < e <= |s| && AtTokenBoundary(s, e) && (e == |s| || IsSpace(s[e]))
    ensures e == i + WordLen(s[i..])
    ensures IsToken(s[i..e])
    ensures Split(s[i..]) == [s[i..e]] + Split(s[e..])
    ensures ConnectorAt(s, i) == if s[i..e] in Connectors then Some(e - i) else None
  {
    e := WordEndIndex(s, i);
    WordEndToken(s, i, e);
    assert IsWordChar(s[i]) && (i == 0 || !IsWordChar(s[i - 1]));
    ConnectorAtWord(s, i, e);
  }

  /** At the start of a word that ends at `e`, the pattern matches the whole word
      exactly when it is a connector. */
  lemma {:induction false} ConnectorAtWord(s: string, i: nat, e: nat)
    requires i < |s| && IsWordChar(s[i]) && (i == 0 || !IsWordChar(s[i - 1]))
    requires e == i + WordLen(s[i..])
    ensures ConnectorAt(s, i) == if s[i..e] in Connectors then Some(e - i) else None
  {
    ConnectorAtWordStart(s, i);
    assert s[i..][..WordLen(s[i..])] == s[i..e];
  }

  /** In text made of words and whitespace, a token is a whole word. */
  lemma {:induction false} WordEndIndex(s: string, i: nat) returns (e: nat)
    requires i < |s| && !IsSpace(s[i]) && WordTokens(s)
    ensures i < e <= |s| && (e == |s| || IsSpace(s[e]))
    ensures e == i + WordLen(s[i..]) && e == i + LeadingNonSpaces(s[i..])
  {
    var x := s[i..];
    var n := LeadingNonSpaces(x);
    e := i + n;
    forall k | 0 <= k < n ensures IsWordChar(x[k]) {
      assert x[k] == s[i + k];
    }
    if n < |x| {
      assert x[n] == s[e];
    }
    WordLenBounded(x, n);
  }

  /** The first token of the text from `i` ends at `e`. */
  lemma {:induction false} WordEndToken(s: string, i: nat, e: nat)
    requires i < |s| && !IsSpace(s[i]) && e == i + LeadingNonSpaces(s[i..])
    ensures IsToken(s[i..e])
    ensures Split(s[i..]) == [s[i..e]] + Split(s[e..])
  {
    var x := s[i..];
    var n := e - i;
    assert x[..n] == s[i..e] && x[n..] == s[e..];
    SplitFirstToken(x, x[..n], x[n..]);
    forall k | 0 <= k < n ensures !IsSpace(s[i..e][k]) {
      assert s[i..e][k] == x[k];
    }
  }

  /** The characters of `s` that are not word characters, in order. */
  function NonWord(s: string): string {
    if s == [] then [] else (if IsWordChar(s[0]) then [] else [s[0]]) + NonWord(s[1..])
  }

  /** The substitution deletes word characters only. */
  lemma {:induction false} KeptNonWordFrom(s: string, i: nat)
    requires i <= |s|
    ensures NonWord(RemoveConnectorsFrom(s, i)) == NonWord(s[i..])
    decreases |s| - i
  {
    if i < |s| {
      assert s[i..][1..] == s[i + 1..];
      match ConnectorAt(s, i)
      case Some(n) =>
        var j := MatchIsWord(s, i, n);
        KeptNonWordFrom(s, j);
        NonWordSkipsWord(s, i, j);
      case None =>
        KeptNonWordFrom(s, i + 1);
        var out := RemoveConnectorsFrom(s, i);
        assert out[0] == s[i] && out[1..] == RemoveConnectorsFrom(s, i + 1);
    }
  }

  /** A match is a run of word characters; it ends at `j`. */
  lemma {:induction false} MatchIsWord(s: string, i: nat, n: nat) returns (j: nat)
    requires i < |s| && ConnectorAt(s, i) == Some(n)
    ensures j == i + n && i < j <= |s|
    ensures forall k :: i <= k < j ==> IsWordChar(s[k])
    ensures RemoveConnectorsFrom(s, i) == RemoveConnectorsFrom(s, j)
  {
    j := i + n;
    ConnectorsAreWords();
    MatchAlternativesIsWord(s, i, Connectors, n);
  }

  lemma {:induction false} MatchAlternativesIsWord(s: string, i: nat, alts: seq<string>, n: nat)
    requires i <= |s|
    requires forall k :: 0 <= k < |alts| ==> alts[k] != [] && AllWordChars(alts[k])
    requires MatchAlternatives(s, i, alts) == Some(n)
    ensures forall k :: i <= k < i + n ==> IsWordChar(s[k])
  {
    var w := alts[0];
    if OccursAt(s, i, w) && AtBoundary(s, i + |w|) {
      forall k | i <= k < i + n ensures IsWordChar(s[k]) {
        assert s[i + (k - i)] == w[k - i];
      }
    } else {
      MatchAlternativesIsWord(s, i, alts[1..], n);
    }
  }

  /** A run of word characters contributes nothing to `NonWord`. */
  lemma {:induction false} NonWordSkipsWord(s: string, i: nat, j: nat)
    requires i <= j <= |s|
    requires forall k :: i <= k < j ==> IsWordChar(s[k])
    ensures NonWord(s[i..]) == NonWord(s[j..])
    decreases j - i
  {
    if i < j {
      assert s[i..][1..] == s[i + 1..];
      NonWordSkipsWord(s, i + 1, j);
    }
  }

  // ------------------------------------------------- what the substitution keeps, by words

  /** The words of `s`: its maximal runs of word characters, in order, the stretches
      that `\b` delimits. */
  function Words(s: string): (ws: seq<string>)
    ensures forall k :: 0 <= k < |ws| ==> ws[k] != [] && AllWordChars(ws[k])
    decreases |s|
  {
    if s == [] then []
    else if !IsWordChar(s[0]) then Words(s[1..])
    else
      var n := WordLen(s);
      WordAtStartIsWord(s, 0);
      assert s[0..] == s;
      [WordAt(s)] + Words(s[n..])
  }

  /** A non-word character in front of a text adds no word. */
  lemma {:induction false} WordsSkip(c: char, t: string, y: string)
    requires !IsWordChar(c) && y == [c] + t
    ensures Words(y) == Words(t)
  {
    assert y[1..] == t;
  }

  /** A word followed by a non-word character or the end is the first word. */
  lemma {:induction false} WordsOfWord(w: string, x: string)
    requires w != [] && AllWordChars(w)
    requires x == [] || !IsWordChar(x[0])
    ensures Words(w + x) == [w] + Words(x)
  {
    WordAtPrefix(w, x);
    WordLenBounded(w + x, |w|);
    assert (w + x)[|w|..] == x;
  }

  /** The words of a text starting with a word are that word and the words after it. */
  lemma {:induction false} WordsAtWordStart(s: string, i: nat) returns (e: nat)
    requires i < |s| && IsWordChar(s[i])
    ensures e == i + WordLen(s[i..]) && i < e <= |s| && (e == |s| || !IsWordChar(s[e]))
    ensures WordAt(s[i..]) == s[i..e]
    ensures Words(s[i..]) == [s[i..e]] + Words(s[e..])
  {
    var x := s[i..];
    e := i + WordLen(x);
    assert x[..WordLen(x)] == s[i..e];
    assert x[WordLen(x)..] == s[e..];
    if e < |s| {
      assert x[e - i] == s[e];
    }
  }

  /** The substitution run from a position that is not inside a word keeps exactly the
      words that are not connectors, in order, whatever the other characters are. */
  lemma {:induction false} KeptWordsFrom(s: string, i: nat)
    requires i <= |s|
    requires i == 0 || i == |s| || !IsWordChar(s[i - 1]) || !IsWordChar(s[i])
    ensures Words(RemoveConnectorsFrom(s, i)) == DropConnectors(Words(s[i..]))
    decreases |s| - i, 1
  {
    if i == |s| {
      assert s[i..] == [];
    } else if !IsWordChar(s[i]) {
      KeptWordsAtNonWord(s, i);
    } else {
      KeptWordsAtWord(s, i);
    }
  }

  /** `KeptWordsFrom` at a non-word character, which is copied. */
  lemma {:induction false} KeptWordsAtNonWord(s: string, i: nat)
    requires i < |s| && !IsWordChar(s[i])
    ensures Words(RemoveConnectorsFrom(s, i)) == DropConnectors(Words(s[i..]))
    decreases |s| - i, 0
  {
    NoConnectorAtNonWord(s, i);
    ScanKeeps(s, i);
    KeptWordsFrom(s, i + 1);
    WordsSkip(s[i], RemoveConnectorsFrom(s, i + 1), RemoveConnectorsFrom(s, i));
    WordsSkip(s[i], s[i + 1..], s[i..]);
  }

  /** `KeptWordsFrom` at the start of a word, which is dropped when it is a connector
      and copied whole otherwise. */
  lemma {:induction false} KeptWordsAtWord(s: string, i: nat)
    requires i < |s| && IsWordChar(s[i]) && (i == 0 || !IsWordChar(s[i - 1]))
    ensures Words(RemoveConnectorsFrom(s, i)) == DropConnectors(Words(s[i..]))
    decreases |s| - i, 0
  {
    var e := WordsAtWordStart(s, i);
    var w := s[i..e];
    ConnectorAtWordStart(s, i);
    KeptWordsFrom(s, e);
    DropConnectorsCons(w, Words(s[e..]));
    if w in Connectors {
      ScanDropsWord(s, i, e);
    } else {
      KeptWordCopied(s, i, e);
      ResumeAtNonWord(s, e);
      WordAtStartIsWord(s, i);
      WordsOfWord(w, RemoveConnectorsFrom(s, e));
    }
  }

  // ------------------------------------------------- what the substitution keeps, in full

  /** Concatenation of a list of strings, `"".join(ss)`. */
  function Concat(ss: seq<string>): string {
    if ss == [] then [] else ss[0] + Concat(ss[1..])
  }

  lemma {:induction false} ConcatCons(x: string, ss: seq<string>)
    ensures Concat([x] + ss) == x + Concat(ss)
  {
    assert ([x] + ss)[1..] == ss;
  }

  /** The text cut into pieces: each of its words (a maximal run of word characters)
      and each other character on its own, in order. Put back together, the pieces
      give the text. */
  function Segments(s: string): (ss: seq<string>)
    ensures Concat(ss) == s
    decreases |s|
  {
    if s == [] then []
    else if !IsWordChar(s[0]) then
      var rest := Segments(s[1..]);
      ConcatCons([s[0]], rest);
      assert [s[0]] + s[1..] == s;
      [[s[0]]] + rest
    else
      var n := WordLen(s);
      var rest := Segments(s[n..]);
      ConcatCons(s[..n], rest);
      SplitAt(s, n);
      [s[..n]] + rest
  }

  /** A non-word character is a piece of its own. */
  lemma {:induction false} SegmentsSkip(s: string, i: nat)
    requires i < |s| && !IsWordChar(s[i])
    ensures Segments(s[i..]) == [[s[i]]] + Segments(s[i + 1..])
  {
    assert s[i..][1..] == s[i + 1..];
  }

  /** A word that starts at a word boundary is a piece of its own. */
  lemma {:induction false} SegmentsAtWordStart(s: string, i: nat, e: nat)
    requires i < |s| && IsWordChar(s[i]) && e == i + WordLen(s[i..])
    ensures Segments(s[i..]) == [s[i..e]] + Segments(s[e..])
  {
    var x := s[i..];
    assert x[..WordLen(x)] == s[i..e];
    assert x[WordLen(x)..] == s[e..];
  }

  /** A single non-word character is never a connector word. */
  lemma {:induction false} NonWordNotConnector(c: char)
    requires !IsWordChar(c)
    ensures [c] !in Connectors
  {
    ConnectorsAreWords();
  }

  /** The substitution run from a position that is not inside a word gives exactly
      the pieces of the rest of the text, connector words removed, put back together:
      every other character stays where it was relative to the kept words. */
  lemma {:induction false} KeptSegmentsFrom(s: string, i: nat)
    requires i <= |s|
    requires i == 0 || i == |s| || !IsWordChar(s[i - 1]) || !IsWordChar(s[i])
    ensures RemoveConnectorsFrom(s, i) == Concat(DropConnectors(Segments(s[i..])))
    decreases |s| - i, 1
  {
    if i == |s| {
      assert s[i..] == [];
    } else if !IsWordChar(s[i]) {
      KeptSegmentsAtNonWord(s, i);
    } else {
      KeptSegmentsAtWord(s, i);
    }
  }

  /** `KeptSegmentsFrom` at a non-word character, which is copied. */
  lemma {:induction false} KeptSegmentsAtNonWord(s: string, i: nat)
    requires i < |s| && !IsWordChar(s[i])
    ensures RemoveConnectorsFrom(s, i) == Concat(DropConnectors(Segments(s[i..])))
    decreases |s| - i, 0
  {
    var rest := Segments(s[i + 1..]);
    NoConnectorAtNonWord(s, i);
    ScanKeeps(s, i);
    KeptSegmentsFrom(s, i + 1);
    SegmentsSkip(s, i);
    NonWordNotConnector(s[i]);
    DropConnectorsCons([s[i]], rest);
    ConcatCons([s[i]], DropConnectors(rest));
  }

  /** `KeptSegmentsFrom` at the start of a word, which is dropped when it is a
      connector and copied whole otherwise. */
  lemma {:induction false} KeptSegmentsAtWord(s: string, i: nat)
    requires i < |s| && IsWordChar(s[i]) && (i == 0 || !IsWordChar(s[i - 1]))
    ensures RemoveConnectorsFrom(s, i) == Concat(DropConnectors(Segments(s[i..])))
    decreases |s| - i, 0
  {
    var e := WordsAtWordStart(s, i);
    ConnectorAtWordStart(s, i);
    KeptSegmentsFrom(s, e);
    SegmentsAtWordStart(s, i, e);
    if s[i..e] in Connectors {
      ScanDropsWord(s, i, e);
      DroppedSegment(s[i..e], Segments(s[e..]), Segments(s[i..]));
    } else {
      KeptWordCopied(s, i, e);
      KeptSegment(s[i..e], Segments(s[e..]), Segments(s[i..]));
    }
  }

  lemma {:induction false} DroppedSegment(w: string, rest: seq<string>, ss: seq<string>)
    requires w in Connectors && ss == [w] + rest
    ensures Concat(DropConnectors(ss)) == Concat(DropConnectors(rest))
  {
    DropConnectorsCons(w, rest);
    assert [] + DropConnectors(rest) == DropConnectors(rest);
  }

  lemma {:induction false} KeptSegment(w: string, rest: seq<string>, ss: seq<string>)
    requires w !in Connectors && ss == [w] + rest
    ensures Concat(DropConnectors(ss)) == w + Concat(DropConnectors(rest))
  {
    DropConnectorsCons(w, rest);
    ConcatCons(w, DropConnectors(rest));
  }

  /** Leading non-word characters add no word. */
  lemma {:induction false} WordsSkipPrefix(s: string, n: nat)
    requires n <= |s|
    requires forall k :: 0 <= k < n ==> !IsWordChar(s[k])
    ensures Words(s) == Words(s[n..])
    decreases n
  {
    if n > 0 {
      WordsSkip(s[0], s[1..], s);
      WordsSkipPrefix(s[1..], n - 1);
      assert s[1..][n - 1..] == s[n..];
    }
  }

  /** Trailing whitespace adds no word. */
  lemma {:induction false} WordsTrailingSpace(x: string, y: string)
    requires AllSpace(y)
    ensures Words(x + y) == Words(x)
    decreases |x|
  {
    if x == [] {
      assert x + y == y;
      WordsSkipPrefix(y, |y|);
      assert y[|y|..] == [];
    } else if !IsWordChar(x[0]) {
      WordsSkip(x[0], x[1..] + y, x + y);
      WordsTrailingSpace(x[1..], y);
      WordsSkip(x[0], x[1..], x);
    } else {
      var n := WordLen(x);
      WordAtStartIsWord(x, 0);
      assert x[0..] == x;
      assert x == x[..n] + x[n..];
      WordsOfWord(x[..n], x[n..]);
      assert x + y == x[..n] + (x[n..] + y);
      WordsOfWord(x[..n], x[n..] + y);
      WordsTrailingSpace(x[n..], y);
    }
  }

  /** Stripping whitespace from the ends keeps the words. */
  lemma {:induction false} WordsStrip(s: string)
    ensures Words(Strip(s)) == Words(s)
  {
    var i, j :| 0 <= i <= j <= |s| && Strip(s) == s[i..j] && AllSpace(s[..i]) && AllSpace(s[j..]);
    SpacePrefixNotWord(s, i);
    WordsSkipPrefix(s, i);
    assert s[i..] == s[i..j] + s[j..];
    WordsTrailingSpace(s[i..j], s[j..]);
  }

  lemma {:induction false} SpacePrefixNotWord(s: string, i: nat)
    requires i <= |s| && AllSpace(s[..i])
    ensures forall k :: 0 <= k < i ==> !IsWordChar(s[k])
  {
    forall k | 0 <= k < i ensures !IsWordChar(s[k]) {
      assert s[..i][k] == s[k];
      assert IsSpace(s[k]);
    }
  }

  /** Collapsing whitespace keeps the words. */
  lemma {:induction false} WordsCollapse(s: string)
    ensures Words(CollapseSpaces(s)) == Words(s)
    decreases |s|
  {
    if s == [] {
    } else if IsSpace(s[0]) {
      WordsCollapse(s[LeadingSpaces(s)..]);
      WordsCollapseAtSpace(s);
    } else if !IsWordChar(s[0]) {
      WordsCollapse(s[1..]);
      WordsCollapseAtNonWord(s);
    } else {
      WordLenPositive(s);
      WordsCollapse(s[WordLen(s)..]);
      WordsCollapseAtWordStart(s);
    }
  }

  lemma {:induction false} WordLenPositive(s: string)
    requires s != [] && IsWordChar(s[0])
    ensures WordLen(s) > 0
  {
  }

  /** `WordsCollapse` for a text that starts with a word character. */
  lemma {:induction false} WordsCollapseAtWordStart(s: string)
    requires s != [] && IsWordChar(s[0])
    requires Words(CollapseSpaces(s[WordLen(s)..])) == Words(s[WordLen(s)..])
    ensures Words(CollapseSpaces(s)) == Words(s)
  {
    var e := WordLen(s);
    WordsUnfold(s);
    SplitAt(s, e);
    WordsCollapseAtWord(s[..e], s[e..], s);
  }

  lemma {:induction false} SplitAt(s: string, e: nat)
    requires e <= |s|
    ensures s == s[..e] + s[e..]
  {
  }

  /** A text that starts with a word character starts with its first word. */
  lemma {:induction false} WordsUnfold(s: string)
    requires s != [] && IsWordChar(s[0])
    ensures s[..WordLen(s)] != [] && AllWordChars(s[..WordLen(s)])
    ensures WordLen(s) == |s| || !IsWordChar(s[WordLen(s)..][0])
    ensures Words(s) == [s[..WordLen(s)]] + Words(s[WordLen(s)..])
  {
    var e := WordLen(s);
    forall k | 0 <= k < e ensures IsWordChar(s[..e][k]) {
      assert s[..e][k] == s[k];
    }
    if e < |s| {
      assert s[e..][0] == s[e];
    }
  }

  /** `WordsCollapse` for a text that starts with whitespace. */
  lemma {:induction false} WordsCollapseAtSpace(s: string)
    requires s != [] && IsSpace(s[0])
    requires Words(CollapseSpaces(s[LeadingSpaces(s)..])) == Words(s[LeadingSpaces(s)..])
    ensures Words(CollapseSpaces(s)) == Words(s)
  {
    var l := LeadingSpaces(s);
    CollapseAtSpace(s);
    WordsSkip(' ', CollapseSpaces(s[l..]), CollapseSpaces(s));
    WordsSkipPrefix(s, l);
  }

  /** `WordsCollapse` for a text that starts with another non-word character. */
  lemma {:induction false} WordsCollapseAtNonWord(s: string)
    requires s != [] && !IsSpace(s[0]) && !IsWordChar(s[0])
    requires Words(CollapseSpaces(s[1..])) == Words(s[1..])
    ensures Words(CollapseSpaces(s)) == Words(s)
  {
    CollapseAtNonSpace(s);
    WordsSkip(s[0], CollapseSpaces(s[1..]), CollapseSpaces(s));
    WordsSkip(s[0], s[1..], s);
  }

  /** `WordsCollapse` for a text that starts with a whole word. */
  lemma {:induction false} WordsCollapseAtWord(w: string, rest: string, s: string)
    requires w != [] && AllWordChars(w) && s == w + rest
    requires rest == [] || !IsWordChar(rest[0])
    requires Words(s) == [w] + Words(rest)
    requires Words(CollapseSpaces(rest)) == Words(rest)
    ensures Words(CollapseSpaces(s)) == Words(s)
  {
    assert NoSpace(w) by {
      forall k | 0 <= k < |w| ensures !IsSpace(w[k]) {
        assert IsWordChar(w[k]);
      }
    }
    CollapseAfterWord(w, rest);
    if rest != [] {
      if IsSpace(rest[0]) {
        CollapseAtSpace(rest);
      } else {
        CollapseAtNonSpace(rest);
      }
    }
    WordsOfWord(w, CollapseSpaces(rest));
  }

  /** The whitespace clean-up of `normalize_nome` keeps the words. */
  lemma {:induction false} WordsCleanup(c: string)
    ensures Words(Strip(CollapseSpaces(c))) == Words(c)
  {
    WordsStrip(CollapseSpaces(c));
    WordsCollapse(c);
  }

  // ------------------------------------------------------------ lower case

  lemma {:induction false} LowerOfLowerCase(s: string)
    requires IsLowerCase(s)
    ensures Lower(s) == s
  {
  }

  lemma {:induction false} RemoveConnectorsLowerCase(s: string, i: nat)
    requires i <= |s|
    requires IsLowerCase(s)
    ensures IsLowerCase(RemoveConnectorsFrom(s, i))
    decreases |s| - i
  {
    if i < |s| {
      match ConnectorAt(s, i)
      case Some(n) => RemoveConnectorsLowerCase(s, i + n);
      case None => RemoveConnectorsLowerCase(s, i + 1);
    }
  }

  lemma {:induction false} StripKeepsLowerCase(s: string)
    requires IsLowerCase(s)
    ensures IsLowerCase(Strip(s))
  {
    var i, j :| 0 <= i <= j <= |s| && Strip(s) == s[i..j];
  }

  // ------------------------------------------------------------ spacing

  lemma {:induction false} StripSingleSpaced(s: string)
    requires forall k :: 0 <= k < |s| && IsSpace(s[k]) ==> s[k] == ' '
    requires forall k :: 0 <= k < |s| - 1 ==> !IsSpace(s[k]) || !IsSpace(s[k + 1])
    ensures SingleSpaced(Strip(s))
  {
    var i, j :| 0 <= i <= j <= |s| && Strip(s) == s[i..j];
    SliceKeepsSpacing(s, i, j);
  }

  /** A slice of a string whose spaces are single plain spaces has the same property. */
  lemma {:induction false} SliceKeepsSpacing(s: string, i: nat, j: nat)
    requires i <= j <= |s|
    requires forall k :: 0 <= k < |s| && IsSpace(s[k]) ==> s[k] == ' '
    requires forall k :: 0 <= k < |s| - 1 ==> !IsSpace(s[k]) || !IsSpace(s[k + 1])
    ensures forall k :: 0 <= k < j - i && IsSpace(s[i..j][k]) ==> s[i..j][k] == ' '
    ensures forall k :: 0 <= k < j - i - 1 ==> !IsSpace(s[i..j][k]) || !IsSpace(s[i..j][k + 1])
  {
    var r := s[i..j];
    forall k | 0 <= k < |r|
      ensures r[k] == s[i + k]
    {
    }
  }

  lemma {:induction false} CollapseOfSingleSpaced(s: string)
    requires forall k :: 0 <= k < |s| && IsSpace(s[k]) ==> s[k] == ' '
    requires forall k :: 0 <= k < |s| - 1 ==> !IsSpace(s[k]) || !IsSpace(s[k + 1])
    ensures CollapseSpaces(s) == s
    decreases |s|
  {
    if s != [] {
      if IsSpace(s[0]) {
        assert LeadingSpaces(s) == 1 by {
          if |s| > 1 { assert !IsSpace(s[1]); assert LeadingSpaces(s[1..]) == 0; }
        }
      }
      CollapseOfSingleSpaced(s[1..]);
      assert s == [s[0]] + s[1..];
    }
  }

  lemma {:induction false} StripOfSingleSpaced(s: string)
    requires SingleSpaced(s)
    ensures Strip(s) == s
  {
    assert LeadingSpaces(s) == 0;
    assert s[0..] == s;
    assert s == [] || StripRight(s) == s;
  }

  // ------------------------------------------------ words and connector matches

  /** Length of the run of word characters that starts `s`. */
  function WordLen(s: string): (n: nat)
    ensures n <= |s|
    ensures forall i :: 0 <= i < n ==> IsWordChar(s[i])
    ensures n < |s| ==> !IsWordChar(s[n])
  {
    if s == [] || !IsWordChar(s[0]) then 0 else 1 + WordLen(s[1..])
  }

  /** The word that starts `s`. */
  function WordAt(s: string): string {
    s[..WordLen(s)]
  }

  /** No word of `s` is a connector; `afterWord` says whether the character before `s`
      was a word character, in which case `s` starts in the middle of a word. */
  ghost predicate CleanFrom(s: string, afterWord: bool)
    decreases |s|
  {
    if s == [] then true
    else if IsWordChar(s[0]) && !afterWord then WordAt(s) !in Connectors && CleanFrom(s[1..], true)
    else CleanFrom(s[1..], IsWordChar(s[0]))
  }

  predicate AllWordChars(w: string) {
    forall j :: 0 <= j < |w| ==> IsWordChar(w[j])
  }

  lemma {:induction false} ConnectorsAreWords()
    ensures forall k :: 0 <= k < |Connectors| ==> Connectors[k] != [] && AllWordChars(Connectors[k])
  {
  }

  lemma {:induction false} NoMatchAtNonWord(s: string, i: nat, alts: seq<string>)
    requires i <= |s|
    requires i == |s| || !IsWordChar(s[i])
    requires forall k :: 0 <= k < |alts| ==> alts[k] != [] && AllWordChars(alts[k])
    ensures MatchAlternatives(s, i, alts).None?
  {
    if alts != [] {
      var w := alts[0];
      if i + |w| <= |s| {
        assert s[i..i + |w|][0] == s[i] && w[0] != s[i];
      }
      NoMatchAtNonWord(s, i, alts[1..]);
    }
  }

  lemma {:induction false} NoConnectorAtNonWord(s: string, i: nat)
    requires i <= |s|
    requires i == |s| || !IsWordChar(s[i])
    ensures ConnectorAt(s, i).None?
  {
    ConnectorsAreWords();
    NoMatchAtNonWord(s, i, Connectors);
  }

  lemma {:induction false} WordLenBounded(s: string, e: nat)
    requires e <= |s|
    requires forall k :: 0 <= k < e ==> IsWordChar(s[k])
    requires e == |s| || !IsWordChar(s[e])
    ensures WordLen(s) == e
  {
    if e > 0 {
      WordLenBounded(s[1..], e - 1);
    }
  }

  /** At the start of a word the pattern matches exactly when the whole word is a
      connector, and then it matches the whole word. */
  lemma {:induction false} MatchAlternativesAtWord(s: string, i: nat, alts: seq<string>, e: nat)
    requires i < |s|
    requires forall k :: 0 <= k < |alts| ==> alts[k] != [] && AllWordChars(alts[k])
    requires e == i + WordLen(s[i..])
    ensures MatchAlternatives(s, i, alts) == if s[i..e] in alts then Some(e - i) else None
  {
    if alts != [] {
      AlternativeAtWord(s, i, alts[0], e);
      MatchAlternativesAtWord(s, i, alts[1..], e);
      assert alts == [alts[0]] + alts[1..];
    }
  }

  /** One alternative matches at the start of a word exactly when it is that whole word. */
  lemma {:induction false} AlternativeAtWord(s: string, i: nat, w: string, e: nat)
    requires i < |s|
    requires w != [] && AllWordChars(w)
    requires e == i + WordLen(s[i..])
    ensures OccursAt(s, i, w) && AtBoundary(s, i + |w|) <==> s[i..e] == w
  {
    if s[i..e] == w {
      WholeWordOccurs(s, i, w, e);
    }
    if OccursAt(s, i, w) && AtBoundary(s, i + |w|) {
      OccurringWordIsWhole(s, i, w, e);
    }
  }

  lemma {:induction false} WholeWordOccurs(s: string, i: nat, w: string, e: nat)
    requires i < |s|
    requires w != [] && AllWordChars(w)
    requires e == i + WordLen(s[i..])
    requires s[i..e] == w
    ensures OccursAt(s, i, w) && AtBoundary(s, i + |w|)
  {
    forall j | 0 <= j < |w| ensures s[i + j] == w[j] {
      assert s[i..e][j] == s[i + j];
    }
    assert IsWordChar(s[e - 1]) by {
      assert s[e - 1] == w[|w| - 1];
    }
    if e < |s| {
      assert s[i..][e - i] == s[e];
    }
  }

  lemma {:induction false} OccurringWordIsWhole(s: string, i: nat, w: string, e: nat)
    requires i < |s|
    requires w != [] && AllWordChars(w)
    requires e == i + WordLen(s[i..])
    requires OccursAt(s, i, w) && AtBoundary(s, i + |w|)
    ensures s[i..e] == w
  {
    var m := i + |w|;
    assert IsWordChar(s[m - 1]) by {
      assert s[i + (|w| - 1)] == w[|w| - 1];
    }
    assert WordLen(s[i..]) == |w| by {
      forall k | 0 <= k < |w| ensures IsWordChar(s[i..][k]) {
        assert s[i..][k] == s[i + k] == w[k];
      }
      if m < |s| {
        assert s[i..][|w|] == s[m];
      }
      WordLenBounded(s[i..], |w|);
    }
    forall k | 0 <= k < |w| ensures s[i..e][k] == w[k] {
      assert s[i..e][k] == s[i + k];
    }
  }

  lemma {:induction false} ConnectorAtWordStart(s: string, i: nat)
    requires i < |s| && IsWordChar(s[i])
    requires i == 0 || !IsWordChar(s[i - 1])
    ensures ConnectorAt(s, i).None? <==> WordAt(s[i..]) !in Connectors
    ensures ConnectorAt(s, i).Some? ==> ConnectorAt(s, i).value == WordLen(s[i..])
  {
    ConnectorsAreWords();
    MatchAlternativesAtWord(s, i, Connectors, i + WordLen(s[i..]));
    assert s[i..][..WordLen(s[i..])] == s[i..i + WordLen(s[i..])];
  }

  /** Inside a word the pattern cannot start, so the character is copied. */
  lemma {:induction false} CopyOneWordChar(s: string, k: nat, e: nat)
    requires 0 < k < e <= |s| && IsWordChar(s[k - 1]) && IsWordChar(s[k])
    requires RemoveConnectorsFrom(s, k + 1) == s[k + 1..e] + RemoveConnectorsFrom(s, e)
    ensures RemoveConnectorsFrom(s, k) == s[k..e] + RemoveConnectorsFrom(s, e)
  {
    assert !AtBoundary(s, k);
    CopyOneChar(s, k, e);
  }

  /** Where no match starts, the scan copies one character in front of the rest. */
  lemma {:induction false} CopyOneChar(s: string, k: nat, e: nat)
    requires k < e <= |s| && ConnectorAt(s, k).None?
    requires RemoveConnectorsFrom(s, k + 1) == s[k + 1..e] + RemoveConnectorsFrom(s, e)
    ensures RemoveConnectorsFrom(s, k) == s[k..e] + RemoveConnectorsFrom(s, e)
  {
    ScanKeeps(s, k);
    assert s[k..e] == [s[k]] + s[k + 1..e];
    ConsAppend(s[k], s[k + 1..e], RemoveConnectorsFrom(s, e), s[k..e]);
  }

  lemma {:induction false} WordLenStep(s: string, k: nat)
    requires k < |s| && IsWordChar(s[k])
    ensures k + WordLen(s[k..]) == k + 1 + WordLen(s[k + 1..])
  {
    assert s[k..][1..] == s[k + 1..];
  }

  lemma {:induction false} CopyRestOfWord(s: string, k: nat, e: nat)
    requires 0 < k <= |s| && IsWordChar(s[k - 1])
    requires e == k + WordLen(s[k..])
    ensures RemoveConnectorsFrom(s, k) == s[k..e] + RemoveConnectorsFrom(s, e)
    decreases |s| - k
  {
    if k < |s| && IsWordChar(s[k]) {
      WordLenStep(s, k);
      CopyRestOfWord(s, k + 1, e);
      CopyOneWordChar(s, k, e);
    } else {
      assert WordLen(s[k..]) == 0;
      EmptyAppend(s[k..k], RemoveConnectorsFrom(s, k));
    }
  }

  lemma {:induction false} EmptyAppend(a: string, b: string)
    requires |a| == 0
    ensures a + b == b
  {
  }

  lemma {:induction false} WordAtPrefix(w: string, rest: string)
    requires AllWordChars(w)
    requires rest == [] || !IsWordChar(rest[0])
    ensures WordAt(w + rest) == w
  {
    WordLenBounded(w + rest, |w|);
    assert (w + rest)[..|w|] == w;
  }

  lemma {:induction false} CleanAfterNonWord(s: string, b: bool)
    requires s == [] || !IsWordChar(s[0])
    requires CleanFrom(s, b)
    ensures CleanFrom(s, false)
  {
  }

  /** Where the pattern does not match, the scan copies one character. */
  lemma {:induction false} ScanKeeps(s: string, i: nat)
    requires i < |s| && ConnectorAt(s, i).None?
    ensures RemoveConnectorsFrom(s, i) == [s[i]] + RemoveConnectorsFrom(s, i + 1)
  {
  }

  /** Where the pattern matches, the scan drops the match. */
  lemma {:induction false} ScanDrops(s: string, i: nat, n: nat)
    requires i < |s| && ConnectorAt(s, i) == Some(n)
    ensures i + n <= |s|
    ensures RemoveConnectorsFrom(s, i) == RemoveConnectorsFrom(s, i + n)
  {
  }

  lemma {:induction false} ConsAppend(c: char, a: string, b: string, ca: string)
    requires ca == [c] + a
    ensures [c] + (a + b) == ca + b
  {
  }

  /** After a deleted connector the output goes on with a non-word character. */
  lemma {:induction false} CleanAfterDroppedWord(s: string, i: nat, n: nat)
    requires i < |s| && ConnectorAt(s, i) == Some(n)
    requires CleanFrom(RemoveConnectorsFrom(s, i + n), true)
    ensures CleanFrom(RemoveConnectorsFrom(s, i), false)
  {
    ScanDrops(s, i, n);
    ResumeAfterMatch(s, i, n);
    ResumeAtNonWord(s, i + n);
    CleanAfterNonWord(RemoveConnectorsFrom(s, i + n), true);
  }

  lemma {:induction false} MatchAlternativesEndsWord(s: string, i: nat, alts: seq<string>, n: nat)
    requires i <= |s|
    requires forall k :: 0 <= k < |alts| ==> alts[k] != [] && AllWordChars(alts[k])
    requires MatchAlternatives(s, i, alts) == Some(n)
    ensures 0 < n && i + n <= |s| && IsWordChar(s[i + n - 1]) && AtBoundary(s, i + n)
  {
    var w := alts[0];
    if OccursAt(s, i, w) && AtBoundary(s, i + |w|) {
      assert s[i + |w| - 1] == w[|w| - 1];
    } else {
      MatchAlternativesEndsWord(s, i, alts[1..], n);
    }
  }

  /** A match always ends with a word character followed by a non-word character or
      the end of the string. */
  lemma {:induction false} ResumeAfterMatch(s: string, i: nat, n: nat)
    requires i < |s| && ConnectorAt(s, i) == Some(n)
    ensures 0 < n && i + n <= |s| && IsWordChar(s[i + n - 1])
    ensures i + n == |s| || !IsWordChar(s[i + n])
  {
    ConnectorsAreWords();
    MatchAlternativesEndsWord(s, i, Connectors, n);
  }

  /** A kept word is copied whole. */
  lemma {:induction false} KeptWordCopied(s: string, i: nat, e: nat)
    requires i < |s| && IsWordChar(s[i])
    requires ConnectorAt(s, i).None?
    requires e == i + WordLen(s[i..])
    ensures RemoveConnectorsFrom(s, i) == s[i..e] + RemoveConnectorsFrom(s, e)
  {
    WordLenStep(s, i);
    CopyRestOfWord(s, i + 1, e);
    CopyOneChar(s, i, e);
  }

  /** Output that resumes at a non-word character starts with it. */
  lemma {:induction false} ResumeAtNonWord(s: string, e: nat)
    requires e <= |s| && (e == |s| || !IsWordChar(s[e]))
    ensures RemoveConnectorsFrom(s, e) == [] || !IsWordChar(RemoveConnectorsFrom(s, e)[0])
  {
    if e < |s| {
      NoConnectorAtNonWord(s, e);
      ScanKeeps(s, e);
    }
  }

  lemma {:induction false} WordAtStartIsWord(s: string, i: nat)
    requires i <= |s|
    ensures AllWordChars(s[i..i + WordLen(s[i..])])
  {
    var e := i + WordLen(s[i..]);
    forall k | 0 <= k < e - i ensures IsWordChar(s[i..e][k]) {
      assert s[i..e][k] == s[i..][k];
    }
  }

  lemma {:induction false} KeptWordIsOutputWord(s: string, i: nat, e: nat)
    requires i < |s| && IsWordChar(s[i])
    requires ConnectorAt(s, i).None?
    requires e == i + WordLen(s[i..])
    ensures WordAt(RemoveConnectorsFrom(s, i)) == s[i..e]
  {
    WordAtStartIsWord(s, i);
    KeptWordCopied(s, i, e);
    ResumeAtNonWord(s, e);
    WordAtPrefix(s[i..e], RemoveConnectorsFrom(s, e));
  }

  lemma {:induction false} CleanAfterKeptWord(s: string, i: nat)
    requires i < |s| && IsWordChar(s[i]) && (i == 0 || !IsWordChar(s[i - 1]))
    requires ConnectorAt(s, i).None?
    requires CleanFrom(RemoveConnectorsFrom(s, i + 1), true)
    ensures CleanFrom(RemoveConnectorsFrom(s, i), false)
  {
    var e := i + WordLen(s[i..]);
    var out := RemoveConnectorsFrom(s, i);
    assert s[i..e] !in Connectors by {
      ConnectorAtWordStart(s, i);
      assert WordAt(s[i..]) == s[i..e];
    }
    assert out[1..] == RemoveConnectorsFrom(s, i + 1) && out[0] == s[i] by {
      ScanKeeps(s, i);
    }
    KeptWordIsOutputWord(s, i, e);
  }

  /** A copied character that is not the start of a word leaves the output clean. */
  lemma {:induction false} CleanAfterCopiedChar(s: string, i: nat, b: bool)
    requires i < |s| && ConnectorAt(s, i).None?
    requires IsWordChar(s[i]) ==> b
    requires CleanFrom(RemoveConnectorsFrom(s, i + 1), IsWordChar(s[i]))
    ensures CleanFrom(RemoveConnectorsFrom(s, i), b)
  {
    ScanKeeps(s, i);
    var out := RemoveConnectorsFrom(s, i);
    assert out[1..] == RemoveConnectorsFrom(s, i + 1);
  }

  /** The substitution leaves no connector word behind. */
  lemma {:induction false} RemoveConnectorsClean(s: string, i: nat)
    requires i <= |s|
    ensures CleanFrom(RemoveConnectorsFrom(s, i), i > 0 && IsWordChar(s[i - 1]))
    decreases |s| - i
  {
    if i < |s| {
      if !IsWordChar(s[i]) {
        NoConnectorAtNonWord(s, i);
        RemoveConnectorsClean(s, i + 1);
        CleanAfterCopiedChar(s, i, i > 0 && IsWordChar(s[i - 1]));
      } else if i > 0 && IsWordChar(s[i - 1]) {
        assert !AtBoundary(s, i);
        RemoveConnectorsClean(s, i + 1);
        CleanAfterCopiedChar(s, i, true);
      } else if ConnectorAt(s, i).Some? {
        var n := ConnectorAt(s, i).value;
        ResumeAfterMatch(s, i, n);
        RemoveConnectorsClean(s, i + n);
        CleanAfterDroppedWord(s, i, n);
      } else {
        RemoveConnectorsClean(s, i + 1);
        CleanAfterKeptWord(s, i);
      }
    }
  }

  lemma {:induction false} WordAtCollapse(s: string)
    ensures WordAt(CollapseSpaces(s)) == WordAt(s)
    decreases |s|
  {
    if s != [] && IsWordChar(s[0]) {
      assert WordAt(CollapseSpaces(s[1..])) == WordAt(s[1..]) by {
        WordAtCollapse(s[1..]);
      }
      assert CollapseSpaces(s) == [s[0]] + CollapseSpaces(s[1..]);
      WordAtCons(s[0], CollapseSpaces(s[1..]));
      WordAtCons(s[0], s[1..]);
      assert s == [s[0]] + s[1..];
    } else if s != [] {
      var r := CollapseSpaces(s);
      assert r[0] == (if IsSpace(s[0]) then ' ' else s[0]);
      WordAtNonWord(r);
      WordAtNonWord(s);
    }
  }

  lemma {:induction false} WordAtCons(c: char, t: string)
    requires IsWordChar(c)
    ensures WordAt([c] + t) == [c] + WordAt(t)
  {
    assert ([c] + t)[1..] == t;
  }

  lemma {:induction false} WordAtNonWord(s: string)
    requires s != [] && !IsWordChar(s[0])
    ensures WordAt(s) == []
  {
  }

  lemma {:induction false} CleanDropNonWords(s: string, m: nat, b: bool)
    requires 0 < m <= |s|
    requires forall k :: 0 <= k < m ==> !IsWordChar(s[k])
    requires CleanFrom(s, b)
    ensures CleanFrom(s[m..], false)
    decreases m
  {
    if m > 1 {
      CleanDropNonWords(s[1..], m - 1, false);
      assert s[1..][m - 1..] == s[m..];
    }
  }

  /** Collapsing whitespace never joins or alters words. */
  lemma {:induction false} CollapseKeepsClean(s: string, b: bool)
    requires CleanFrom(s, b)
    ensures CleanFrom(CollapseSpaces(s), b)
    decreases |s|
  {
    if s != [] {
      if IsSpace(s[0]) {
        var n := LeadingSpaces(s);
        if n < |s| {
          CleanDropNonWords(s, n, b);
          CollapseKeepsClean(s[n..], false);
        }
      } else {
        CollapseKeepsClean(s[1..], IsWordChar(s[0]));
        if IsWordChar(s[0]) && !b {
          WordAtCollapse(s);
        }
      }
    }
  }

  lemma {:induction false} WordAtTruncate(s: string, m: nat)
    requires WordLen(s) <= m <= |s|
    ensures WordAt(s[..m]) == WordAt(s)
  {
    WordLenBounded(s[..m], WordLen(s));
  }

  lemma {:induction false} CleanDropLast(s: string, b: bool)
    requires |s| > 0 && !IsWordChar(s[|s| - 1])
    requires CleanFrom(s, b)
    ensures CleanFrom(s[..|s| - 1], b)
    decreases |s|
  {
    if |s| > 1 {
      var t := s[..|s| - 1];
      assert t[1..] == s[1..][..|s| - 2];
      CleanDropLast(s[1..], IsWordChar(s[0]));
      if IsWordChar(s[0]) && !b {
        assert WordLen(s) < |s|;
        WordAtTruncate(s, |s| - 1);
      }
    }
  }

  lemma {:induction false} StripRightKeepsClean(s: string)
    requires CleanFrom(s, false)
    ensures CleanFrom(StripRight(s), false)
    decreases |s|
  {
    if s != [] && IsSpace(s[|s| - 1]) {
      CleanDropLast(s, false);
      StripRightKeepsClean(s[..|s| - 1]);
    }
  }

  lemma {:induction false} StripKeepsClean(s: string)
    requires CleanFrom(s, false)
    ensures CleanFrom(Strip(s), false)
  {
    var i := LeadingSpaces(s);
    if 0 < i {
      CleanDropNonWords(s, i, false);
    } else {
      assert s[i..] == s;
    }
    StripRightKeepsClean(s[i..]);
  }

  /** A string whose words are all non-connectors gives the pattern no match. */
  lemma {:induction false} CleanHasNoConnector(s: string, k: nat)
    requires k <= |s|
    requires CleanFrom(s[k..], k > 0 && IsWordChar(s[k - 1]))
    ensures forall i :: k <= i <= |s| ==> ConnectorAt(s, i).None?
    decreases |s| - k
  {
    if k == |s| {
      NoConnectorAtNonWord(s, k);
    } else {
      if !IsWordChar(s[k]) {
        NoConnectorAtNonWord(s, k);
      } else if k > 0 && IsWordChar(s[k - 1]) {
        assert !AtBoundary(s, k);
      } else {
        ConnectorAtWordStart(s, k);
      }
      assert s[k..][1..] == s[k + 1..];
      CleanHasNoConnector(s, k + 1);
    }
  }

  lemma {:induction false} RemoveConnectorsNoMatch(s: string, i: nat)
    requires i <= |s|
    requires forall j :: i <= j <= |s| ==> ConnectorAt(s, j).None?
    ensures RemoveConnectorsFrom(s, i) == s[i..]
    decreases |s| - i
  {
    if i < |s| {
      RemoveConnectorsNoMatch(s, i + 1);
      assert s[i..] == [s[i]] + s[i + 1..];
    }
  }
}

/** The main process: the self-join that pairs records sharing a `cpf`, the scores and
    status of each pair, and the routing of pairs and unpaired records to ingestion and
    to the inconsistency log. The dataframes are finite sequences of rows. */
module Pipeline {
  import opened Wrappers
  import opened Similarity
  import opened Classifier

  /** A row of `df`: the record's columns and its `assinatura` fingerprint column. */
  datatype Row = Row(id: int, cpf: Option<string>, nome: Option<string>, dataNasc: string,
                     nomeMae: Option<string>, sexo: string, assinatura: string)

  /** The join condition of the self-join: equal `cpf` (SQL equality, which never
      holds for NULL), a smaller `id` on the left and differing fingerprints. */
  function Joins(a: Row, b: Row): (j: bool)
    ensures j ==> a != b && a.cpf.Some? && a.cpf == b.cpf
  {
    a.cpf.Some? && b.cpf.Some? && a.cpf.value == b.cpf.value &&
    a.id < b.id && a.assinatura != b.assinatura
  }

  /** A joined row, `a` and `b` being the two aliases. */
  datatype Pair = Pair(a: Row, b: Row)

  /** The pairs with `a` on the left and a row of `rows` on the right. */
  function Partners(a: Row, rows: seq<Row>): (ps: seq<Pair>)
    ensures forall p :: p in ps <==> p.a == a && p.b in rows && Joins(a, p.b)
    ensures |ps| <= |rows|
  {
    if rows == [] then []
    else (if Joins(a, rows[0]) then [Pair(a, rows[0])] else []) + Partners(a, rows[1..])
  }

  /** The join of `left` with `right`, left row by left row. */
  function JoinAll(left: seq<Row>, right: seq<Row>): (ps: seq<Pair>)
    ensures forall p :: p in ps <==> p.a in left && p.b in right && Joins(p.a, p.b)
  {
    if left == [] then [] else Partners(left[0], right) + JoinAll(left[1..], right)
  }

  /** `df_joined`: every pair of rows satisfying the join condition. */
  function Candidates(rows: seq<Row>): (ps: seq<Pair>)
    ensures forall p :: p in ps <==> p.a in rows && p.b in rows && Joins(p.a, p.b)
  {
    JoinAll(rows, rows)
  }

  /** `score_final` of a joined row. The fingerprints differ, so at least one of them
      is non-empty and `len_max` is positive. */
  function Score(p: Pair): (r: real)
    requires p.a.assinatura != p.b.assinatura
    ensures 0.0 <= r < 1.0
  {
    PairScore(p.a.assinatura, p.b.assinatura)
  }

  /** A row of `df_resultado`. */
  datatype Classified = Classified(idA: int, idB: int, cpf: Option<string>, scoreFinal: real,
                                   status: Status)

  /** What the selected columns of a joined row hold: its ids and key, the composite
      score of its two fingerprints, and the label the rule chain gives that score and
      the two records' birth dates and sexes. The key is present, so `Q001` never
      fires. */
  predicate Describes(c: Classified, p: Pair)
    requires p.a.assinatura != p.b.assinatura
  {
    && c.idA == p.a.id && c.idB == p.b.id && c.cpf == p.a.cpf
    && c.scoreFinal == PairScore(p.a.assinatura, p.b.assinatura)
    && (c.status == Ok <==> c.scoreFinal >= OkThreshold)
    && (c.status == Q002 <==> c.scoreFinal < RejectThreshold)
    && (c.status == Q006 <==>
          RejectThreshold <= c.scoreFinal < OkThreshold &&
          p.a.dataNasc != p.b.dataNasc && p.a.sexo != p.b.sexo)
    && (c.status == ValidarNomes <==>
          RejectThreshold <= c.scoreFinal < OkThreshold &&
          (p.a.dataNasc == p.b.dataNasc || p.a.sexo == p.b.sexo))
  }

  /** Scores and labels one joined row and keeps the selected columns. */
  function ClassifyPair(p: Pair): (c: Classified)
    requires Joins(p.a, p.b)
    ensures Describes(c, p)
    ensures c.cpf.Some? && c.status != Q001
    ensures 0.0 <= c.scoreFinal < 1.0
  {
    var s := Score(p);
    Classified(p.a.id, p.b.id, p.a.cpf, s,
               Classify(p.a.cpf, s, p.a.dataNasc, p.b.dataNasc, p.a.sexo, p.b.sexo))
  }

  /** `df_resultado`: the classified candidate pairs, in join order. Each keeps the ids
      and key of its pair, holds the composite score of its two fingerprints and the
      label the rule chain gives it (`Describes`); every one has a key, so the `Q001`
      rule never fires; its score lies in [0, 1), and its label is `OK` exactly at a
      score of 0.75 or more and `Q002` exactly below 0.60. */
  function Results(rows: seq<Row>): (cs: seq<Classified>)
    ensures |cs| == |Candidates(rows)|
    ensures forall k :: 0 <= k < |cs| ==>
      Candidates(rows)[k].a.assinatura != Candidates(rows)[k].b.assinatura &&
      Describes(cs[k], Candidates(rows)[k])
    ensures forall k :: 0 <= k < |cs| ==> cs[k].cpf.Some? && cs[k].status != Q001
    ensures forall k :: 0 <= k < |cs| ==> 0.0 <= cs[k].scoreFinal < 1.0
    ensures forall k :: 0 <= k < |cs| ==>
      (cs[k].status == Ok <==> cs[k].scoreFinal >= OkThreshold) &&
      (cs[k].status == Q002 <==> cs[k].scoreFinal < RejectThreshold)
  {
    var ps := Candidates(rows);
    seq(|ps|, k requires 0 <= k < |ps| => ClassifyPair(ps[k]))
  }

  /** `df_resultado.filter(status_final == "OK")`. */
  function IngestPairs(cs: seq<Classified>): (out: seq<Classified>)
    ensures forall c :: c in out <==> c in cs && c.status == Ok
    ensures |out| <= |cs|
  {
    if cs == [] then []
    else
      CodeInjective(cs[0].status, Ok);
      (if Code(cs[0].status) == "OK" then [cs[0]] else []) + IngestPairs(cs[1..])
  }

  /** `df_resultado.filter(status_final.startswith("Q"))`. */
  function LogPairs(cs: seq<Classified>): (out: seq<Classified>)
    ensures forall c :: c in out <==> c in cs && (c.status == Q001 || c.status == Q002 || c.status == Q006)
    ensures |out| <= |cs|
  {
    if cs == [] then []
    else
      (if IsLogged(cs[0].status) then [cs[0]] else []) + LogPairs(cs[1..])
  }

  /** The pairs neither filter selects: those labelled `VALIDAR_NOMES`. */
  function Unrouted(cs: seq<Classified>): (out: seq<Classified>)
    ensures forall c :: c in out <==> c in cs && c.status == ValidarNomes
  {
    if cs == [] then []
    else (if cs[0].status == ValidarNomes then [cs[0]] else []) + Unrouted(cs[1..])
  }

  /** `cpfs_duplicados`: the distinct keys of the classified pairs. */
  function DuplicateKeys(cs: seq<Classified>): set<Option<string>> {
    set c | c in cs :: c.cpf
  }

  /** A row the `left_anti` join on `cpf` removes: its key equals one of `keys`
      (a NULL key equals nothing). */
  predicate KeyMatches(r: Row, keys: set<Option<string>>) {
    r.cpf.Some? && r.cpf in keys
  }

  /** `df_unicos`: the rows of `df` whose key matches none of `keys`, in order. */
  function UniqueRows(rows: seq<Row>, keys: set<Option<string>>): (out: seq<Row>)
    ensures forall r :: r in out <==> r in rows && !KeyMatches(r, keys)
    ensures |out| <= |rows|
  {
    if rows == [] then []
    else (if KeyMatches(rows[0], keys) then [] else [rows[0]]) + UniqueRows(rows[1..], keys)
  }

  /** The two outputs. Ingestion is kept as its two parts, the matched pairs and the
      unique records, because the pair rows and the record rows have different columns. */
  datatype Outcome = Outcome(ingestPairs: seq<Classified>, ingestUnique: seq<Row>,
                             log: seq<Classified>)

  /** The whole process from `df` (with its fingerprint column) to the ingestion and
      log outputs: ingestion receives exactly the `OK` pairs, whose score is at least
      0.75, and exactly the records that have no key or whose key group has no two
      fingerprints that differ; the log receives exactly the `Q002` and `Q006` pairs. */
  function Deduplicate(rows: seq<Row>): (o: Outcome)
    ensures forall c :: c in o.ingestPairs <==> c in Results(rows) && c.status == Ok
    ensures forall c :: c in o.ingestPairs ==> c.scoreFinal >= OkThreshold
    ensures forall c :: c in o.log <==> c in Results(rows) && (c.status == Q002 || c.status == Q006)
    ensures forall r :: r in o.ingestUnique <==> r in rows && (r.cpf.None? || !Conflicting(rows, r))
  {
    var cs := Results(rows);
    var unique := UniqueRows(rows, DuplicateKeys(cs));
    assert forall r :: r in unique <==> r in rows && (r.cpf.None? || !Conflicting(rows, r)) by {
      forall r
        ensures r in unique <==> r in rows && (r.cpf.None? || !Conflicting(rows, r))
      {
        UniqueIffNoConflict(rows, r);
      }
    }
    Outcome(IngestPairs(cs), unique, LogPairs(cs))
  }

  // ------------------------------------------------------------ properties

  /** A candidate pair whose fingerprints have the same tokens, in whatever order or
      spacing, scores at least 0.75 and goes to ingestion as `OK`. */
  lemma {:induction false} SameTokensIngested(rows: seq<Row>, k: nat)
    requires k < |Candidates(rows)|
    requires var p := Candidates(rows)[k];
      TokenSet(p.a.assinatura) == TokenSet(p.b.assinatura) && TokenSet(p.a.assinatura) != {}
    ensures Results(rows)[k].scoreFinal >= OkThreshold && Results(rows)[k].status == Ok
    ensures Results(rows)[k] in Deduplicate(rows).ingestPairs
  {
    var p := Candidates(rows)[k];
    SameTokensScore(p.a.assinatura, p.b.assinatura);
    assert Results(rows)[k] in Results(rows);
  }

  /** Fingerprints with the same tokens score at least 0.75. */
  lemma {:induction false} SameTokensScore(sigA: string, sigB: string)
    requires sigA != sigB
    requires TokenSet(sigA) == TokenSet(sigB) && TokenSet(sigA) != {}
    ensures PairScore(sigA, sigB) >= OkThreshold
  {
    assert Jaccard(sigA, sigB) == 1.0;
    assert LevScore(sigA, sigB) >= 0.0;
  }

  /** A candidate pair whose fingerprints share no token scores below 0.60 and goes to
      the inconsistency log as `Q002`. */
  lemma {:induction false} DisjointTokensLogged(rows: seq<Row>, k: nat)
    requires k < |Candidates(rows)|
    requires var p := Candidates(rows)[k]; TokenSet(p.a.assinatura) * TokenSet(p.b.assinatura) == {}
    ensures Results(rows)[k].scoreFinal < RejectThreshold && Results(rows)[k].status == Q002
    ensures Results(rows)[k] in Deduplicate(rows).log
  {
    var p := Candidates(rows)[k];
    DisjointTokensScore(p.a.assinatura, p.b.assinatura);
    assert Results(rows)[k] in Results(rows);
  }

  /** Fingerprints that share no token score at most 0.25. */
  lemma {:induction false} DisjointTokensScore(sigA: string, sigB: string)
    requires sigA != sigB
    requires TokenSet(sigA) * TokenSet(sigB) == {}
    ensures PairScore(sigA, sigB) <= 0.25
  {
    assert Jaccard(sigA, sigB) == 0.0;
    assert LevScore(sigA, sigB) <= 1.0;
  }

  /** `VALIDAR_NOMES` pairs go neither to ingestion nor to the log. */
  lemma {:induction false} ValidarNomesUnrouted(rows: seq<Row>, c: Classified)
    requires c in Results(rows) && c.status == ValidarNomes
    ensures c !in Deduplicate(rows).ingestPairs && c !in Deduplicate(rows).log
    ensures c in Unrouted(Results(rows))
  {
  }

  /** Every classified pair lands in exactly one of ingestion, the log and the
      unrouted `VALIDAR_NOMES` pairs. */
  lemma {:induction false} RoutingPartition(cs: seq<Classified>)
    ensures |IngestPairs(cs)| + |LogPairs(cs)| + |Unrouted(cs)| == |cs|
  {
    if cs != [] {
      RoutingPartition(cs[1..]);
      CodeInjective(cs[0].status, Ok);
    }
  }

  /** The keys of the classified pairs are the left keys of the candidate pairs. */
  lemma {:induction false} ResultKeys(rows: seq<Row>)
    ensures DuplicateKeys(Results(rows)) == set p | p in Candidates(rows) :: p.a.cpf
  {
    var cs := Results(rows);
    var ps := Candidates(rows);
    forall c | c in cs
      ensures c.cpf in set p | p in ps :: p.a.cpf
    {
      var k :| 0 <= k < |cs| && cs[k] == c;
      assert ps[k] in ps;
    }
    forall p | p in ps
      ensures p.a.cpf in DuplicateKeys(cs)
    {
      var k :| 0 <= k < |ps| && ps[k] == p;
      assert cs[k] in cs;
    }
  }

  /** Some pair of records sharing the key of `r` passes the join condition. */
  predicate Conflicting(rows: seq<Row>, r: Row) {
    exists a, b :: a in rows && b in rows && Joins(a, b) && a.cpf == r.cpf
  }

  /** A record goes to ingestion as unique exactly when it has no key, or no two
      records with its key have different fingerprints. */
  lemma {:induction false} UniqueIffNoConflict(rows: seq<Row>, r: Row)
    ensures r in UniqueRows(rows, DuplicateKeys(Results(rows))) <==>
      r in rows && (r.cpf.None? || !Conflicting(rows, r))
  {
    ResultKeys(rows);
    if Conflicting(rows, r) {
      var a, b :| a in rows && b in rows && Joins(a, b) && a.cpf == r.cpf;
      assert Pair(a, b) in Candidates(rows);
    }
  }

  /** A record with no key is always ingested as unique. */
  lemma {:induction false} NullKeyIsUnique(rows: seq<Row>, r: Row)
    requires r in rows && r.cpf.None?
    ensures r in Deduplicate(rows).ingestUnique
  {
  }

  /** A record whose key group shares one fingerprint is ingested as unique. */
  lemma {:induction false} IdenticalGroupIsUnique(rows: seq<Row>, r: Row)
    requires r in rows
    requires forall s :: s in rows && s.cpf == r.cpf ==> s.assinatura == r.assinatura
    ensures r in Deduplicate(rows).ingestUnique
  {
  }

  /** The two records of a candidate pair are never ingested as unique. */
  lemma {:induction false} PairedNotUnique(rows: seq<Row>, p: Pair)
    requires p in Candidates(rows)
    ensures p.a !in Deduplicate(rows).ingestUnique
    ensures p.b !in Deduplicate(rows).ingestUnique
  {
    assert Conflicting(rows, p.a) && Conflicting(rows, p.b);
  }

  /** The record ids are distinct. */
  predicate DistinctIds(rows: seq<Row>) {
    forall i, j :: 0 <= i < j < |rows| ==> rows[i].id != rows[j].id
  }

  /** The ids of the two records of a pair. */
  function Key(p: Pair): (int, int) {
    (p.a.id, p.b.id)
  }

  /** No two pairs join the same two records. */
  predicate UniquePairs(ps: seq<Pair>) {
    forall i, j :: 0 <= i < j < |ps| ==> Key(ps[i]) != Key(ps[j])
  }

  lemma {:induction false} UniqueConcat(xs: seq<Pair>, ys: seq<Pair>)
    requires UniquePairs(xs) && UniquePairs(ys)
    requires forall x, y :: x in xs && y in ys ==> Key(x) != Key(y)
    ensures UniquePairs(xs + ys)
  {
    var zs := xs + ys;
    forall i, j | 0 <= i < j < |zs|
      ensures Key(zs[i]) != Key(zs[j])
    {
      if j < |xs| {
        assert zs[i] == xs[i] && zs[j] == xs[j];
      } else if i >= |xs| {
        assert zs[i] == ys[i - |xs|] && zs[j] == ys[j - |xs|];
      } else {
        assert zs[i] in xs && zs[j] in ys;
      }
    }
  }

  /** A row of a list of distinct ids has a different id from every later row. */
  lemma {:induction false} HeadIdFresh(rows: seq<Row>, r: Row)
    requires rows != [] && DistinctIds(rows) && r in rows[1..]
    ensures r.id != rows[0].id
  {
    var k :| 0 <= k < |rows[1..]| && rows[1..][k] == r;
    assert rows[k + 1] == r;
  }

  /** The pairs of one left row join distinct right rows. */
  lemma {:induction false} PartnersUnique(a: Row, rows: seq<Row>)
    requires DistinctIds(rows)
    ensures UniquePairs(Partners(a, rows))
  {
    if rows != [] {
      var tail := rows[1..];
      assert DistinctIds(tail) by {
        forall i, j | 0 <= i < j < |tail| ensures tail[i].id != tail[j].id {
          assert tail[i] == rows[i + 1] && tail[j] == rows[j + 1];
        }
      }
      PartnersUnique(a, tail);
      var head := if Joins(a, rows[0]) then [Pair(a, rows[0])] else [];
      forall x, y | x in head && y in Partners(a, tail)
        ensures Key(x) != Key(y)
      {
        HeadIdFresh(rows, y.b);
      }
      UniqueConcat(head, Partners(a, tail));
    }
  }

  /** With distinct ids, the join produces each pair of records at most once. */
  lemma {:induction false} JoinAllUnique(left: seq<Row>, right: seq<Row>)
    requires DistinctIds(left) && DistinctIds(right)
    ensures UniquePairs(JoinAll(left, right))
  {
    if left != [] {
      var tail := left[1..];
      assert DistinctIds(tail) by {
        forall i, j | 0 <= i < j < |tail| ensures tail[i].id != tail[j].id {
          assert tail[i] == left[i + 1] && tail[j] == left[j + 1];
        }
      }
      JoinAllUnique(tail, right);
      PartnersUnique(left[0], right);
      forall x, y | x in Partners(left[0], right) && y in JoinAll(tail, right)
        ensures Key(x) != Key(y)
      {
        HeadIdFresh(left, y.a);
      }
      UniqueConcat(Partners(left[0], right), JoinAll(tail, right));
    }
  }

  /** The candidate pairs are ordered by id, join records with different fingerprints,
      and, when the ids are distinct, name each unordered pair of records at most once. */
  lemma {:induction false} CandidatesUnique(rows: seq<Row>)
    requires DistinctIds(rows)
    ensures UniquePairs(Candidates(rows))
    ensures forall p :: p in Candidates(rows) ==> p.a.id < p.b.id && p.a.assinatura != p.b.assinatura
    ensures forall p, q :: p in Candidates(rows) && q in Candidates(rows) ==> Key(q) != (p.b.id, p.a.id)
  {
    JoinAllUnique(rows, rows);
  }
}

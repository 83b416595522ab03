/** The `status_final` rule chain: a first-match-wins sequence of `when` clauses that
    labels each candidate pair. */
module Classifier {
  import opened Wrappers

  datatype Status = Q001 | Ok | Q002 | Q006 | ValidarNomes

  /** The label stored in the `status_final` column; it starts with `Q` exactly for
      the three inconsistency codes. */
  function Code(s: Status): (c: string)
    ensures |c| >= 2
    ensures c[0] == 'Q' <==> s == Q001 || s == Q002 || s == Q006
  {
    match s
    case Q001 => "Q001"
    case Ok => "OK"
    case Q002 => "Q002"
    case Q006 => "Q006"
    case ValidarNomes => "VALIDAR_NOMES"
  }

  /** `status_final.startswith("Q")`: true exactly for the three inconsistency codes,
      so `OK` and `VALIDAR_NOMES` are not logged. */
  function IsLogged(s: Status): (b: bool)
    ensures b <==> s == Q001 || s == Q002 || s == Q006
  {
    Code(s)[0] == 'Q'
  }

  const OkThreshold: real := 0.75
  const RejectThreshold: real := 0.60

  /** The rule chain: a missing `cpf` on the left record gives `Q001`; otherwise a
      score of at least 0.75 gives `OK`; otherwise a score below 0.60 gives `Q002`;
      otherwise a birth date and a sex that both differ give `Q006`; anything else
      is `VALIDAR_NOMES`. */
  function Classify(cpfA: Option<string>, score: real, dataA: string, dataB: string,
                    sexoA: string, sexoB: string): (r: Status)
    ensures r == Q001 <==> cpfA.None?
    ensures r == Ok <==> cpfA.Some? && score >= OkThreshold
    ensures r == Q002 <==> cpfA.Some? && score < RejectThreshold
    ensures r == Q006 <==>
      (cpfA.Some? && RejectThreshold <= score < OkThreshold && dataA != dataB && sexoA != sexoB)
    ensures r == ValidarNomes <==>
      (cpfA.Some? && RejectThreshold <= score < OkThreshold && (dataA == dataB || sexoA == sexoB))
  {
    if cpfA.None? then Q001
    else if score >= OkThreshold then Ok
    else if score < RejectThreshold then Q002
    else if dataA != dataB && sexoA != sexoB then Q006
    else ValidarNomes
  }

  /** Each status has its own label. */
  lemma {:induction false} CodeInjective(s: Status, t: Status)
    ensures Code(s) == Code(t) <==> s == t
  {
    if s != t {
      assert Code(s)[1] != Code(t)[1] || Code(s)[3] != Code(t)[3] || |Code(s)| != |Code(t)|;
    }
  }

  /** A pair with a key is never labelled `Q001`, whatever its scores. */
  lemma {:induction false} KeyedNeverQ001(cpf: string, score: real, dataA: string, dataB: string,
                                         sexoA: string, sexoB: string)
    ensures Classify(Some(cpf), score, dataA, dataB, sexoA, sexoB) != Q001
  {
  }

  /** The rule order matters: with a missing key even a perfect score gives `Q001`, and
      a low score gives `Q002` even when birth date and sex both differ. */
  lemma RuleOrderExamples()
    ensures Classify(None, 1.0, "2000-01-01", "1999-01-01", "M", "F") == Q001
    ensures Classify(Some("1"), 0.5, "2000-01-01", "1999-01-01", "M", "F") == Q002
    ensures Classify(Some("1"), 0.7, "2000-01-01", "1999-01-01", "M", "F") == Q006
    ensures Classify(Some("1"), 0.7, "2000-01-01", "2000-01-01", "M", "F") == ValidarNomes
    ensures Classify(Some("1"), 0.825, "2000-01-01", "1999-01-01", "M", "F") == Ok
  {
  }
}

/** `extract_first_last` and `gerar_assinatura`: the record fingerprint built from the
    first and last tokens of the student's and the mother's normalised names, the birth
    date and the sex. */
module Fingerprint {
  import opened Wrappers
  import opened Strings
  import opened NameNormalizer

  /** The second value `extract_first_last` returns. The conditional expression binds
      tighter than the tuple comma, so for a name of several tokens it is the last token,
      and for a one-token name it is the tuple (first, first) instead. */
  datatype LastPart = Tok(tok: string) | Pair(left: string, right: string)

  /** How the f-string renders a `LastPart`: a string as itself, a tuple of two strings
      as its `repr`, `('a', 'b')`. Tokens are taken to hold no quote, backslash or
      non-printable character (such as U+0000 to U+0008, U+000E to U+001B, U+007F to
      U+00A0), which `repr` would escape. */
  function Render(p: LastPart): (r: string)
    ensures p.Tok? ==> r == p.tok
    ensures p.Pair? ==> |r| == |p.left| + |p.right| + 8
  {
    match p
    case Tok(t) => t
    case Pair(a, b) => "('" + a + "', '" + b + "')"
  }

  /** `nome or ""`: an absent name reads as the empty string. */
  function OrEmpty(nome: Option<string>): (r: string)
    ensures nome.Some? ==> r == nome.value
    ensures r == [] <==> nome.None? || nome.value == []
  {
    match nome
    case None => ""
    case Some(s) => s
  }

  /** `extract_first_last`. Without a token `partes[0]` raises IndexError, so the
      caller must supply at least one token. */
  function ExtractFirstLast(nome: string): (r: (string, LastPart))
    requires Split(Strip(nome)) != []
    ensures IsToken(r.0)
    ensures r.1.Tok? ==> IsToken(r.1.tok)
    ensures r.1.Pair? ==> r.1.left == r.0 && r.1.right == r.0
  {
    var partes := Split(Strip(nome));
    (partes[0], if |partes| > 1 then Tok(partes[|partes| - 1]) else Pair(partes[0], partes[0]))
  }

  /** The first component is the stripped name up to its first whitespace; the second
      is the pair `(first, first)` exactly when the stripped name is one token, and then
      that token is the whole stripped name; otherwise it is the stripped name from just
      after its last whitespace. */
  lemma {:induction false} ExtractFirstLastShape(nome: string)
    requires Split(Strip(nome)) != []
    ensures var r := ExtractFirstLast(nome);
      var s := Strip(nome);
      |r.0| <= |s| && s[..|r.0|] == r.0 && (|r.0| == |s| || IsSpace(s[|r.0|]))
    ensures var r := ExtractFirstLast(nome);
      (r.1.Pair? <==> NoSpace(Strip(nome))) &&
      (r.1.Pair? ==> r.0 == Strip(nome))
    ensures var r := ExtractFirstLast(nome);
      var s := Strip(nome);
      r.1.Tok? ==>
        |r.1.tok| < |s| && s[|s| - |r.1.tok|..] == r.1.tok && IsSpace(s[|s| - |r.1.tok| - 1])
  {
    var s := Strip(nome);
    SplitFirst(s);
    SplitSingle(s);
    SplitLast(s);
    var partes := Split(s);
    assert |partes| == 1 ==> partes[0] == s;
  }

  /** The fingerprint of already normalised names: IndexError exactly when either has
      no token, otherwise the f-string of line 28. */
  function Assemble(aluno: string, dataNasc: string, mae: string, sexo: string): (r: Result<string, Error>)
    ensures r.Failure? <==> Split(Strip(aluno)) == [] || Split(Strip(mae)) == []
    ensures r.Failure? ==> r.error == IndexError
  {
    if Split(Strip(aluno)) == [] || Split(Strip(mae)) == [] then Failure(IndexError)
    else
      var (pnA, unA) := ExtractFirstLast(aluno);
      var (pnM, unM) := ExtractFirstLast(mae);
      Success(pnA + " " + Render(unA) + " " + dataNasc + " " + pnM + " " + Render(unM) + " " + sexo)
  }

  /** A fingerprint holds at least the five separating spaces, so it is never empty. */
  lemma {:induction false} AssembleNonEmpty(aluno: string, dataNasc: string, mae: string, sexo: string)
    requires Assemble(aluno, dataNasc, mae, sexo).Success?
    ensures Occurrences(Assemble(aluno, dataNasc, mae, sexo).value, ' ') >= 5
    ensures |Assemble(aluno, dataNasc, mae, sexo).value| > 0
  {
    var (pnA, unA) := ExtractFirstLast(aluno);
    var (pnM, unM) := ExtractFirstLast(mae);
    SixFieldSpaces(pnA, Render(unA), dataNasc, pnM, Render(unM), sexo);
  }

  /** Six fields joined by single spaces hold at least those five spaces. */
  lemma {:induction false} SixFieldSpaces(f0: string, f1: string, f2: string, f3: string, f4: string, f5: string)
    ensures Occurrences(f0 + " " + f1 + " " + f2 + " " + f3 + " " + f4 + " " + f5, ' ') >= 5
  {
    var sp := " ";
    assert Occurrences(sp, ' ') == 1;
    OccurrencesAppend(f0, sp, ' ');
    OccurrencesAppend(f0 + sp, f1, ' ');
    OccurrencesAppend(f0 + sp + f1, sp, ' ');
    OccurrencesAppend(f0 + sp + f1 + sp, f2, ' ');
    OccurrencesAppend(f0 + sp + f1 + sp + f2, sp, ' ');
    OccurrencesAppend(f0 + sp + f1 + sp + f2 + sp, f3, ' ');
    OccurrencesAppend(f0 + sp + f1 + sp + f2 + sp + f3, sp, ' ');
    OccurrencesAppend(f0 + sp + f1 + sp + f2 + sp + f3 + sp, f4, ' ');
    OccurrencesAppend(f0 + sp + f1 + sp + f2 + sp + f3 + sp + f4, sp, ' ');
    OccurrencesAppend(f0 + sp + f1 + sp + f2 + sp + f3 + sp + f4 + sp, f5, ' ');
  }

  /** `gerar_assinatura`: both names are normalised (an absent one reads as empty) and
      the fingerprint is assembled from them. It fails, with IndexError, exactly when a
      normalised name is empty: an absent name, an empty one, or one made only of
      connector words and whitespace. */
  function Signature(nome: Option<string>, dataNasc: string, nomeMae: Option<string>, sexo: string)
    : (r: Result<string, Error>)
    ensures r.Failure? <==> Normalize(OrEmpty(nome)) == [] || Normalize(OrEmpty(nomeMae)) == []
    ensures r.Failure? ==> r.error == IndexError
  {
    NormalizedTokens(OrEmpty(nome));
    NormalizedTokens(OrEmpty(nomeMae));
    Assemble(Normalize(OrEmpty(nome)), dataNasc, Normalize(OrEmpty(nomeMae)), sexo)
  }

  // ------------------------------------------------------------ properties

  /** A normalised name is its own stripped form, and it has a token unless it is empty. */
  lemma {:induction false} NormalizedTokens(nome: string)
    ensures var n := Normalize(nome); Strip(n) == n && (Split(n) == [] <==> n == [])
  {
    var n := Normalize(nome);
    StripOfSingleSpaced(n);
    assert n != [] ==> !AllSpace(n);
  }

  /** An absent student name always makes the fingerprint fail. */
  lemma {:induction false} AbsentNameFails(dataNasc: string, nomeMae: Option<string>, sexo: string)
    ensures Signature(None, dataNasc, nomeMae, sexo) == Failure(IndexError)
  {
    assert Lower("") == "";
    assert RemoveConnectors("") == "";
    assert Normalize("") == "";
  }

  /** A name made only of connector words, such as "De  da dos", normalises to
      nothing, so its fingerprint fails with IndexError. */
  lemma {:induction false} ConnectorOnlyNameFails(nome: string, dataNasc: string, nomeMae: Option<string>, sexo: string)
    requires AllConnectors(Split(Lower(nome)))
    ensures Normalize(nome) == []
    ensures Signature(Some(nome), dataNasc, nomeMae, sexo) == Failure(IndexError)
  {
    NormalizeConnectorsOnly(nome);
  }

  /** Conversely, names with a word that is not a connector, such as "Ana da Silva",
      "Ana-Maria da Silva" or "J. da Silva", always give a fingerprint. */
  lemma {:induction false} SignatureSucceeds(nome: string, dataNasc: string, nomeMae: string, sexo: string)
    requires !AllConnectors(Words(Lower(nome)))
    requires !AllConnectors(Words(Lower(nomeMae)))
    ensures Signature(Some(nome), dataNasc, Some(nomeMae), sexo).Success?
  {
    NormalizeNonEmpty(nome);
    NormalizeNonEmpty(nomeMae);
  }

  /** The fingerprint depends on the names only through their normal forms. */
  lemma {:induction false} SignatureOfNormalized(nome: string, dataNasc: string, nomeMae: string, sexo: string)
    ensures Signature(Some(Normalize(nome)), dataNasc, Some(Normalize(nomeMae)), sexo)
      == Signature(Some(nome), dataNasc, Some(nomeMae), sexo)
  {
    NormalizeIdempotent(nome);
    NormalizeIdempotent(nomeMae);
  }

  /** Records whose names and mother's names normalise alike and whose birth date and
      sex are equal get byte-identical fingerprints. */
  lemma {:induction false} SignatureDeterministic(
    n1: Option<string>, m1: Option<string>, n2: Option<string>, m2: Option<string>,
    dataNasc: string, sexo: string)
    requires Normalize(OrEmpty(n1)) == Normalize(OrEmpty(n2))
    requires Normalize(OrEmpty(m1)) == Normalize(OrEmpty(m2))
    ensures Signature(n1, dataNasc, m1, sexo) == Signature(n2, dataNasc, m2, sexo)
  {
  }

  /** `p` is a prefix of `s`. */
  predicate StartsWith(s: string, p: string) {
    |p| <= |s| && s[..|p|] == p
  }

  /** Appending to a string keeps its prefixes. */
  lemma {:induction false} StartsWithAppend(s: string, p: string, t: string)
    requires StartsWith(s, p)
    ensures StartsWith(s + t, p)
  {
    assert (s + t)[..|p|] == s[..|p|];
  }

  /** Six fields joined by single spaces. */
  lemma {:induction false} JoinSix(f0: string, f1: string, f2: string, f3: string, f4: string, f5: string)
    ensures Join([f0, f1, f2, f3, f4, f5]) == f0 + " " + f1 + " " + f2 + " " + f3 + " " + f4 + " " + f5
  {
    var fields := [f0, f1, f2, f3, f4, f5];
    assert Join(fields[5..]) == f5;
    assert Join(fields[4..]) == f4 + " " + f5;
    assert Join(fields[3..]) == f3 + " " + (f4 + " " + f5);
    assert Join(fields[2..]) == f2 + " " + (f3 + " " + (f4 + " " + f5));
    assert Join(fields[1..]) == f1 + " " + (f2 + " " + (f3 + " " + (f4 + " " + f5)));
    assert Join(fields) == f0 + " " + (f1 + " " + (f2 + " " + (f3 + " " + (f4 + " " + f5))));
  }

  /** With names of two or more tokens, the assembled fingerprint is first, last, birth
      date, mother's first, mother's last and sex, joined by single spaces. */
  lemma {:induction false} AssembleSixFields(aluno: string, dataNasc: string, mae: string, sexo: string)
    requires Strip(aluno) == aluno && Strip(mae) == mae
    requires |Split(aluno)| >= 2 && |Split(mae)| >= 2
    ensures var a := Split(aluno);
      var m := Split(mae);
      Assemble(aluno, dataNasc, mae, sexo)
        == Success(Join([a[0], a[|a| - 1], dataNasc, m[0], m[|m| - 1], sexo]))
  {
    var a := Split(aluno);
    var m := Split(mae);
    var ea := ExtractFirstLast(aluno);
    var em := ExtractFirstLast(mae);
    assert ea.0 == a[0] && ea.1 == Tok(a[|a| - 1]);
    assert em.0 == m[0] && em.1 == Tok(m[|m| - 1]);
    assert Assemble(aluno, dataNasc, mae, sexo)
      == Success(ea.0 + " " + Render(ea.1) + " " + dataNasc + " " + em.0 + " " + Render(em.1) + " " + sexo);
    JoinSix(a[0], a[|a| - 1], dataNasc, m[0], m[|m| - 1], sexo);
  }

  /** For names of two or more tokens the fingerprint is the six fields first, last,
      birth date, mother's first, mother's last, sex, joined by single spaces. */
  lemma {:induction false} SignatureSixFields(nome: Option<string>, dataNasc: string, nomeMae: Option<string>, sexo: string)
    requires |Split(Normalize(OrEmpty(nome)))| >= 2
    requires |Split(Normalize(OrEmpty(nomeMae)))| >= 2
    ensures var a := Split(Normalize(OrEmpty(nome)));
      var m := Split(Normalize(OrEmpty(nomeMae)));
      Signature(nome, dataNasc, nomeMae, sexo)
        == Success(Join([a[0], a[|a| - 1], dataNasc, m[0], m[|m| - 1], sexo]))
  {
    var aluno := Normalize(OrEmpty(nome));
    var mae := Normalize(OrEmpty(nomeMae));
    assert Strip(aluno) == aluno by { NormalizedTokens(OrEmpty(nome)); }
    assert Strip(mae) == mae by { NormalizedTokens(OrEmpty(nomeMae)); }
    AssembleSixFields(aluno, dataNasc, mae, sexo);
  }

  /** When the birth date and the sex are single tokens, splitting such a fingerprint
      on whitespace gives the six fields back, which is what `jaccard_udf` compares;
      `a` and `m` are the tokens of the two normalised names. */
  lemma {:induction false} SignatureTokens(nome: Option<string>, dataNasc: string, nomeMae: Option<string>, sexo: string,
                                           a: seq<string>, m: seq<string>)
    requires a == Split(Normalize(OrEmpty(nome))) && |a| >= 2
    requires m == Split(Normalize(OrEmpty(nomeMae))) && |m| >= 2
    requires IsToken(dataNasc) && IsToken(sexo)
    ensures Signature(nome, dataNasc, nomeMae, sexo).Success?
    ensures Split(Signature(nome, dataNasc, nomeMae, sexo).value)
      == [a[0], a[|a| - 1], dataNasc, m[0], m[|m| - 1], sexo]
  {
    var aluno := Normalize(OrEmpty(nome));
    var mae := Normalize(OrEmpty(nomeMae));
    assert Strip(aluno) == aluno by { NormalizedTokens(OrEmpty(nome)); }
    assert Strip(mae) == mae by { NormalizedTokens(OrEmpty(nomeMae)); }
    AssembleTokens(aluno, dataNasc, mae, sexo, a, m);
  }

  /** `SignatureTokens` for names that are already normalised. */
  lemma {:induction false} AssembleTokens(aluno: string, dataNasc: string, mae: string, sexo: string,
                                          a: seq<string>, m: seq<string>)
    requires Strip(aluno) == aluno && Strip(mae) == mae
    requires a == Split(aluno) && |a| >= 2
    requires m == Split(mae) && |m| >= 2
    requires IsToken(dataNasc) && IsToken(sexo)
    ensures Assemble(aluno, dataNasc, mae, sexo).Success?
    ensures Split(Assemble(aluno, dataNasc, mae, sexo).value)
      == [a[0], a[|a| - 1], dataNasc, m[0], m[|m| - 1], sexo]
  {
    AssembleSixFields(aluno, dataNasc, mae, sexo);
    assert IsToken(a[0]) && IsToken(a[|a| - 1]) && IsToken(m[0]) && IsToken(m[|m| - 1]) by {
      FirstLastTokens(aluno);
      FirstLastTokens(mae);
    }
    SixTokens(a[0], a[|a| - 1], dataNasc, m[0], m[|m| - 1], sexo);
    SplitJoin([a[0], a[|a| - 1], dataNasc, m[0], m[|m| - 1], sexo]);
  }

  lemma {:induction false} FirstLastTokens(s: string)
    requires Split(s) != []
    ensures IsToken(Split(s)[0]) && IsToken(Split(s)[|Split(s)| - 1])
  {
  }

  lemma {:induction false} SixTokens(f0: string, f1: string, f2: string, f3: string, f4: string, f5: string)
    requires IsToken(f0) && IsToken(f1) && IsToken(f2) && IsToken(f3) && IsToken(f4) && IsToken(f5)
    ensures forall k :: 0 <= k < 6 ==> IsToken([f0, f1, f2, f3, f4, f5][k])
  {
  }

  /** A one-token name puts the tuple text `('p', 'p')` in the second field. */
  lemma {:induction false} AssembleOneToken(aluno: string, dataNasc: string, mae: string, sexo: string)
    requires Strip(aluno) == aluno && aluno != [] && NoSpace(aluno)
    requires Split(Strip(mae)) != []
    ensures Assemble(aluno, dataNasc, mae, sexo).Success?
    ensures var sig := Assemble(aluno, dataNasc, mae, sexo).value;
      StartsWith(sig, aluno + " ('" + aluno + "', '" + aluno + "')")
  {
    assert Split(Strip(aluno)) != [] by { assert !AllSpace(aluno); }
    var tuple := "('" + aluno + "', '" + aluno + "')";
    var head := aluno + " " + tuple;
    assert ExtractFirstLast(aluno) == (aluno, Pair(aluno, aluno)) by { ExtractFirstLastShape(aluno); }
    var pnM := ExtractFirstLast(mae).0;
    var rM := Render(ExtractFirstLast(mae).1);
    var sig := head + " " + dataNasc + " " + pnM + " " + rM + " " + sexo;
    assert Assemble(aluno, dataNasc, mae, sexo) == Success(sig);
    StartsWithFields(head, dataNasc, pnM, rM, sexo);
    ReprAfterSpace(aluno);
  }

  /** The fields after the first two do not disturb the prefix. */
  lemma {:induction false} StartsWithFields(head: string, f2: string, f3: string, f4: string, f5: string)
    ensures StartsWith(head + " " + f2 + " " + f3 + " " + f4 + " " + f5, head)
  {
    assert StartsWith(head, head);
    StartsWithAppend(head, head, " ");
    StartsWithAppend(head + " ", head, f2);
    StartsWithAppend(head + " " + f2, head, " ");
    StartsWithAppend(head + " " + f2 + " ", head, f3);
    StartsWithAppend(head + " " + f2 + " " + f3, head, " ");
    StartsWithAppend(head + " " + f2 + " " + f3 + " ", head, f4);
    StartsWithAppend(head + " " + f2 + " " + f3 + " " + f4, head, " ");
    StartsWithAppend(head + " " + f2 + " " + f3 + " " + f4 + " ", head, f5);
  }

  /** The tuple text after a separating space, regrouped. */
  lemma {:induction false} ReprAfterSpace(p: string)
    ensures p + " " + ("('" + p + "', '" + p + "')") == p + " ('" + p + "', '" + p + "')"
  {
  }

  /** For a one-token name the second field is the tuple text `('p', 'p')`, not `p`. */
  lemma {:induction false} SignatureOneToken(nome: string, dataNasc: string, nomeMae: Option<string>, sexo: string)
    requires Normalize(nome) != [] && NoSpace(Normalize(nome))
    requires Normalize(OrEmpty(nomeMae)) != []
    ensures Signature(Some(nome), dataNasc, nomeMae, sexo).Success?
    ensures var p := Normalize(nome);
      var sig := Signature(Some(nome), dataNasc, nomeMae, sexo).value;
      StartsWith(sig, p + " ('" + p + "', '" + p + "')")
  {
    var aluno := Normalize(nome);
    var mae := Normalize(OrEmpty(nomeMae));
    assert Strip(aluno) == aluno by { NormalizedTokens(nome); }
    assert Split(Strip(mae)) != [] by { NormalizedTokens(OrEmpty(nomeMae)); }
    assert OrEmpty(Some(nome)) == nome;
    AssembleOneToken(aluno, dataNasc, mae, sexo);
  }

  // ------------------------------------------------------------ the intended fingerprint

  /** `extract_first_last` as evidently intended, `(partes[0], partes[-1])` for every
      name: for a one-token name the last token is the first one. */
  function ExtractFirstLastIntended(nome: string): (r: (string, string))
    requires Split(Strip(nome)) != []
    ensures IsToken(r.0) && IsToken(r.1)
    ensures r.0 == Split(Strip(nome))[0]
    ensures |Split(Strip(nome))| == 1 ==> r.1 == r.0
    ensures r.1 == Split(Strip(nome))[|Split(Strip(nome))| - 1]
    ensures TrailingRun(Strip(nome), r.1)
  {
    var partes := Split(Strip(nome));
    SplitLast(Strip(nome));
    (partes[0], partes[|partes| - 1])
  }

  /** `Assemble` with the intended `extract_first_last`. */
  function AssembleIntended(aluno: string, dataNasc: string, mae: string, sexo: string): (r: Result<string, Error>)
    ensures r.Failure? <==> Split(Strip(aluno)) == [] || Split(Strip(mae)) == []
    ensures r.Failure? ==> r.error == IndexError
  {
    if Split(Strip(aluno)) == [] || Split(Strip(mae)) == [] then Failure(IndexError)
    else
      var (pnA, unA) := ExtractFirstLastIntended(aluno);
      var (pnM, unM) := ExtractFirstLastIntended(mae);
      Success(pnA + " " + unA + " " + dataNasc + " " + pnM + " " + unM + " " + sexo)
  }

  /** `gerar_assinatura` with the intended `extract_first_last`. */
  function SignatureIntended(nome: Option<string>, dataNasc: string, nomeMae: Option<string>, sexo: string)
    : (r: Result<string, Error>)
    ensures r.Failure? <==> Normalize(OrEmpty(nome)) == [] || Normalize(OrEmpty(nomeMae)) == []
    ensures r.Failure? ==> r.error == IndexError
  {
    NormalizedTokens(OrEmpty(nome));
    NormalizedTokens(OrEmpty(nomeMae));
    AssembleIntended(Normalize(OrEmpty(nome)), dataNasc, Normalize(OrEmpty(nomeMae)), sexo)
  }

  /** With the intended definition every fingerprint, one-token names included, splits
      into the six fields first, last, birth date, mother's first, mother's last, sex;
      it fails exactly where the written one does. */
  lemma {:induction false} SignatureIntendedTokens(nome: Option<string>, dataNasc: string, nomeMae: Option<string>,
                                                   sexo: string, a: seq<string>, m: seq<string>)
    requires a == Split(Normalize(OrEmpty(nome))) && a != []
    requires m == Split(Normalize(OrEmpty(nomeMae))) && m != []
    requires IsToken(dataNasc) && IsToken(sexo)
    ensures SignatureIntended(nome, dataNasc, nomeMae, sexo).Success?
    ensures Split(SignatureIntended(nome, dataNasc, nomeMae, sexo).value)
      == [a[0], a[|a| - 1], dataNasc, m[0], m[|m| - 1], sexo]
  {
    var aluno := Normalize(OrEmpty(nome));
    var mae := Normalize(OrEmpty(nomeMae));
    assert Strip(aluno) == aluno by { NormalizedTokens(OrEmpty(nome)); }
    assert Strip(mae) == mae by { NormalizedTokens(OrEmpty(nomeMae)); }
    AssembleIntendedTokens(aluno, dataNasc, mae, sexo, a, m);
  }

  lemma {:induction false} AssembleIntendedTokens(aluno: string, dataNasc: string, mae: string, sexo: string,
                                                  a: seq<string>, m: seq<string>)
    requires Strip(aluno) == aluno && Strip(mae) == mae
    requires a == Split(aluno) && a != []
    requires m == Split(mae) && m != []
    requires IsToken(dataNasc) && IsToken(sexo)
    ensures AssembleIntended(aluno, dataNasc, mae, sexo).Success?
    ensures Split(AssembleIntended(aluno, dataNasc, mae, sexo).value)
      == [a[0], a[|a| - 1], dataNasc, m[0], m[|m| - 1], sexo]
  {
    assert AssembleIntended(aluno, dataNasc, mae, sexo)
      == Success(a[0] + " " + a[|a| - 1] + " " + dataNasc + " " + m[0] + " " + m[|m| - 1] + " " + sexo);
    JoinSix(a[0], a[|a| - 1], dataNasc, m[0], m[|m| - 1], sexo);
    assert IsToken(a[0]) && IsToken(a[|a| - 1]) && IsToken(m[0]) && IsToken(m[|m| - 1]) by {
      FirstLastTokens(aluno);
      FirstLastTokens(mae);
    }
    SixTokens(a[0], a[|a| - 1], dataNasc, m[0], m[|m| - 1], sexo);
    SplitJoin([a[0], a[|a| - 1], dataNasc, m[0], m[|m| - 1], sexo]);
  }

  /** The written and the intended `extract_first_last` agree on the first token; the
      written second field renders at least as long as the intended one, and for a
      one-token name it is the tuple text, `|p| + 8` characters longer. */
  lemma {:induction false} RenderedLastPart(nome: string)
    requires Split(Strip(nome)) != []
    ensures ExtractFirstLast(nome).0 == ExtractFirstLastIntended(nome).0
    ensures ExtractFirstLast(nome).1.Tok? ==>
      Render(ExtractFirstLast(nome).1) == ExtractFirstLastIntended(nome).1
    ensures ExtractFirstLast(nome).1.Pair? ==>
      |Render(ExtractFirstLast(nome).1)| == 2 * |ExtractFirstLastIntended(nome).1| + 8
  {
  }

  /** The discrepancy: for a one-token student name the written fingerprint is longer
      than the intended one, so the two differ. */
  lemma {:induction false} OneTokenDiffers(aluno: string, dataNasc: string, mae: string, sexo: string)
    requires Strip(aluno) == aluno && aluno != [] && NoSpace(aluno)
    requires Split(Strip(mae)) != []
    ensures Assemble(aluno, dataNasc, mae, sexo).Success?
    ensures AssembleIntended(aluno, dataNasc, mae, sexo).Success?
    ensures |Assemble(aluno, dataNasc, mae, sexo).value|
      >= |AssembleIntended(aluno, dataNasc, mae, sexo).value| + |aluno| + 8
  {
    assert Split(Strip(aluno)) != [] by { assert !AllSpace(aluno); }
    assert ExtractFirstLast(aluno).1.Pair? && ExtractFirstLast(aluno).0 == aluno by {
      ExtractFirstLastShape(aluno);
    }
    RenderedLastPart(aluno);
    RenderedLastPart(mae);
  }
}

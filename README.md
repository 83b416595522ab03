# Record deduplication by fingerprint, Jaccard and Levenshtein — a Dafny model

The script `deduplicacao_assinatura.py` deduplicates student records that share a
national identity key (`cpf`). Each record gets a fingerprint (`assinatura`) built
from the first and last tokens of the student's and the mother's normalised names,
the birth date and the sex. Records with the same key and different fingerprints are
paired by a self-join. Each pair is scored by Jaccard similarity over whitespace
tokens plus a Levenshtein edit score. A first-match-wins rule chain then labels the
pair. `OK` pairs go to ingestion, `Q…` pairs go to an inconsistency log, and every
record whose key produced no pair is ingested as unique.

The model is pure, like the script: datatypes, functions over `seq`/`set`, and
lemmas. The one loop is an optional dynamic-programming Levenshtein method, proved
equal to the recursive definition. Modules, leaves first:

- `Wrappers` (`wrappers.dfy`): `Option`, `Result` and the `IndexError` failure.
- `Strings` (`strings.dfy`): Python's `\s`/`\w` on ASCII (whitespace includes U+001C to U+001F), `str.strip()`, `str.split()` and joining with single spaces.
- `NameNormalizer` (`normalizer.dfy`): `normalize_nome`. The regex substitution of line 15 is modelled literally. It is a left-to-right scan over the original string, with `\b` evaluated on that string and the alternatives `de|da|do|das|dos` tried in order.
- `Fingerprint` (`fingerprint.dfy`): `extract_first_last` and `gerar_assinatura`, as written and as intended (see Findings).
- `Similarity` (`similarity.dfy`): `jaccard_udf`, the Levenshtein distance, `len_max`, `lev_score` and `score_final`, with scores as exact reals.
- `Classifier` (`classifier.dfy`): the `status_final` rule chain.
- `Pipeline` (`pipeline.dfy`): the self-join, the classified pairs, and the ingestion, log and anti-join routing over a finite sequence of rows.

Where the code does something other than what it evidently intends, the model follows the code:

- An empty name, or one made only of connector words, raises IndexError in `extract_first_last`. It does not yield an empty fingerprint. The model returns `Failure(IndexError)`.
- A missing key never reaches the rule chain. SQL equality in the join drops NULL keys, so `Q001` is dead. Records without a key go to ingestion as unique.
- `1 - lev_dist/len_max` is not guarded against `len_max == 0`. The model requires a non-empty fingerprint there. This always holds, because paired fingerprints differ.
- For a one-token name the code puts the tuple text `('p', 'p')` in the fingerprint, where a repeated token `p p` was meant.

## Model

| member | source | states |
|---|---|---|
| Strings.Strip | deduplicacao_assinatura.py:16 | the result has no whitespace at either end, and it is a slice of the input with only whitespace cut off on each side |
| Strings.Split | deduplicacao_assinatura.py:20 | every token is non-empty and free of whitespace; there are no tokens exactly when the string is all whitespace; its content is fixed by the lemmas `SplitFirstToken` (a text that starts with non-whitespace splits into its leading run and the split of the rest) and `SplitSkipsLeadingSpace` (leading whitespace is skipped) |
| Strings.SplitJoin | deduplicacao_assinatura.py:37-38 | splitting a single-space join of tokens gives back the same tokens in order |
| Strings.SplitLast | deduplicacao_assinatura.py:20-21 | for a string ending in non-whitespace, the last token of `str.split()` is the string's suffix after its last whitespace (the whole string if it has none) |
| NameNormalizer.Lower | deduplicacao_assinatura.py:14 | same length; no upper-case letter is left; other characters are unchanged; each upper-case letter becomes its lower-case form |
| NameNormalizer.ConnectorAt | deduplicacao_assinatura.py:15 | a match of `\b(de\|da\|do\|das\|dos)\b` at a position starts at a word boundary, has positive length and ends inside the text; `ConnectorAtWordStart` and `NoConnectorAtNonWord` state when it matches |
| NameNormalizer.MatchAlternatives | deduplicacao_assinatura.py:15 | a match of the alternation has positive length and ends inside the string |
| NameNormalizer.MatchAlternativesAtWord | deduplicacao_assinatura.py:15 | at the start of a word, the alternation matches exactly when the whole word is one of the alternatives, and then it matches the whole word |
| NameNormalizer.ConnectorAtWordStart | deduplicacao_assinatura.py:15 | at the start of a word, `\b(de\|da\|do\|das\|dos)\b` fails exactly when the word is not a connector; when it matches, it spans the whole word |
| NameNormalizer.NoConnectorAtNonWord | deduplicacao_assinatura.py:15 | the pattern never matches at a non-word character or at the end |
| NameNormalizer.RemoveConnectors | deduplicacao_assinatura.py:15 | the result is exactly the text's pieces (`Segments`: each word, and each other character on its own), with the connector words taken out, put back together in order (`Concat`), so `x-da y` becomes `x- y`; no whole word of the result is a connector; every non-word character is kept, in order; for every text, the `\b`-delimited words left are exactly the input's non-connector words, in order (`Words`, `DropConnectors`), so `Ana-Maria da Silva` keeps `Ana`, `Maria` and `Silva`; on a text of words and whitespace the same holds for its tokens; a text where the pattern matches nowhere comes back unchanged |
| NameNormalizer.Segments | deduplicacao_assinatura.py:15 | the text cut into its words (maximal runs of word characters) and its other characters one by one, in order; put back together, the pieces give the text |
| NameNormalizer.KeptSegmentsFrom | deduplicacao_assinatura.py:15 | from any word boundary, the scan outputs exactly the pieces of the rest of the text without the connector words, put back together |
| NameNormalizer.Words | deduplicacao_assinatura.py:15 | the maximal runs of word characters, the words that `\b…\b` delimits, in order: each is non-empty and made only of word characters |
| NameNormalizer.KeptWordsFrom | deduplicacao_assinatura.py:15 | from any word boundary, the scan leaves exactly the non-connector words of the rest of the text, in order |
| NameNormalizer.KeptTokensFrom | deduplicacao_assinatura.py:15 | on a text of words and whitespace, the scan from a token boundary leaves exactly the non-connector tokens of the rest of the text, in order |
| NameNormalizer.KeptNonWordFrom | deduplicacao_assinatura.py:15 | the scan deletes only word characters: the non-word characters of its output are those of the rest of the input, in order |
| NameNormalizer.DropConnectors | deduplicacao_assinatura.py:15 | the reference for the substitution: every kept token is an input token and not a connector, and every input token that is not a connector is kept |
| NameNormalizer.RemoveConnectorsClean | deduplicacao_assinatura.py:15 | after the substitution no whole word of the text is a connector |
| NameNormalizer.RemoveConnectorsNoMatch | deduplicacao_assinatura.py:15 | where the pattern matches nowhere, the substitution returns the text unchanged |
| NameNormalizer.CollapseSpaces | deduplicacao_assinatura.py:16 | empty exactly when the input is; the first character is whitespace exactly when the input's is; every whitespace character left is a plain space; no two whitespace characters are adjacent; every character is a space or comes from the input; the non-whitespace characters are exactly the input's, in the same order |
| NameNormalizer.CollapseOfSingleSpaced | deduplicacao_assinatura.py:16 | collapsing a text whose whitespace is already single plain spaces changes nothing |
| NameNormalizer.StripOfSingleSpaced | deduplicacao_assinatura.py:16 | stripping a single-spaced text with no padding changes nothing |
| NameNormalizer.CollapseKeepsClean | deduplicacao_assinatura.py:16 | collapsing whitespace creates no connector word |
| NameNormalizer.StripKeepsClean | deduplicacao_assinatura.py:16 | stripping creates no connector word |
| NameNormalizer.SplitCollapse | deduplicacao_assinatura.py:16-20 | collapsing whitespace runs to one space leaves the whitespace-separated tokens unchanged: no run disappears and none is added |
| NameNormalizer.JoinSplit | deduplicacao_assinatura.py:16-20 | joining the tokens of `str.split()` with single spaces gives the text with whitespace runs collapsed to one space and the ends stripped, so splitting loses only the whitespace layout |
| NameNormalizer.Normalize | deduplicacao_assinatura.py:13-17 | the normalised name is lower-case, has no leading or trailing whitespace, no two adjacent whitespace characters and only plain spaces, and the connector pattern matches nowhere in it; for every name, it is the lower-cased name with its connector words taken out and every other character left where it was (the pieces of `RemoveConnectors`), then split on whitespace and joined by single spaces, so hyphens, apostrophes and periods stay next to the words they were next to (`NormalizeHyphenated` works this out for `a-m da z`); its words are exactly the lower-cased name's non-connector words, in order; for a name of words and whitespace it is the lower-cased tokens without the connector words, joined by single spaces |
| NameNormalizer.WordsCleanup | deduplicacao_assinatura.py:16 | collapsing whitespace runs and stripping the ends keep the words of the text |
| NameNormalizer.NormalizeHyphenated | deduplicacao_assinatura.py:13-17 | a hyphenated lower-case name `a-m da z` with non-connector words `a`, `m`, `z`, such as `ana-maria da silva`, normalises to exactly `a-m z`: the connector goes, the hyphen stays in place, and one space is left |
| NameNormalizer.NormalizeNonEmpty | deduplicacao_assinatura.py:13-17 | any name whose lower-cased words are not all connector words normalises to a non-empty name |
| NameNormalizer.NormalizeDanielaDaSilva | deduplicacao_assinatura.py:13-17 | `Daniela da Silva` normalises to `daniela silva`: the connector `da` goes and `Daniela`, which contains `da`, is kept whole |
| NameNormalizer.NormalizeIdempotent | deduplicacao_assinatura.py:13-17 | normalising a normalised name changes nothing |
| NameNormalizer.NormalizeOfWellFormed | deduplicacao_assinatura.py:13-17 | a name that is already lower-case, single-spaced and free of connector words is its own normal form |
| NameNormalizer.NormalizeConnectorsOnly | deduplicacao_assinatura.py:13-17 | a name whose whitespace-separated tokens, once lower-cased, are all connector words (such as `De  da dos`) normalises to the empty string |
| Fingerprint.Render | deduplicacao_assinatura.py:21-28 | a plain token is written as itself; a tuple is written as its `repr` `('a', 'b')`, eight characters longer than its two tokens |
| Fingerprint.OrEmpty | deduplicacao_assinatura.py:24-25 | `nome or ""`: a present name is kept, and the result is empty exactly when the name is absent or empty |
| Fingerprint.ExtractFirstLast | deduplicacao_assinatura.py:19-21 | with at least one token, the first component is a token; a `Tok` second component is a token; a pair second component repeats the first token twice |
| Fingerprint.ExtractFirstLastShape | deduplicacao_assinatura.py:19-21 | the first component is the stripped name up to its first whitespace; the second is a pair exactly when the stripped name has no whitespace, and then the first component is the whole stripped name; otherwise the second is the stripped name's suffix after its last whitespace |
| Fingerprint.NormalizedTokens | deduplicacao_assinatura.py:13-20 | a normalised name is its own stripped form, and it has no token exactly when it is empty |
| Fingerprint.Assemble | deduplicacao_assinatura.py:26-28 | from already normalised names: fails with IndexError exactly when either stripped name has no token; `AssembleSixFields`, `AssembleTokens` and `AssembleOneToken` give the text otherwise |
| Fingerprint.Signature | deduplicacao_assinatura.py:23-28 | fails with IndexError exactly when the student's or the mother's normalised name is empty (absent, empty, or made only of connector words and whitespace); `SignatureSixFields`, `SignatureTokens` and `SignatureOneToken` give the text otherwise |
| Fingerprint.AbsentNameFails | deduplicacao_assinatura.py:24-26 | an absent student name (`None`, read as `""`) makes the fingerprint fail with IndexError |
| Fingerprint.ConnectorOnlyNameFails | deduplicacao_assinatura.py:24-26 | every name whose tokens, once lower-cased, are all connector words (such as `De  da dos`) normalises to the empty string, so its fingerprint fails with IndexError |
| Fingerprint.SignatureSucceeds | deduplicacao_assinatura.py:23-28 | names whose lower-cased words are not all connector words, hyphenated or abbreviated names included, always get a fingerprint |
| Fingerprint.SignatureOfNormalized | deduplicacao_assinatura.py:23-25 | normalising the names before fingerprinting gives the same fingerprint |
| Fingerprint.SignatureDeterministic | deduplicacao_assinatura.py:23-28 | records whose names and mother's names normalise alike, with equal birth date and sex, get identical fingerprints |
| Fingerprint.AssembleSixFields | deduplicacao_assinatura.py:26-28 | for stripped names of two or more tokens, the fingerprint is first, last, birth date, mother's first, mother's last and sex, joined by single spaces |
| Fingerprint.SignatureSixFields | deduplicacao_assinatura.py:23-28 | for names whose normal forms have two or more tokens, the fingerprint is the six fields joined by single spaces |
| Fingerprint.AssembleTokens | deduplicacao_assinatura.py:26-28 | for stripped names of two or more tokens, with a one-token birth date and sex, the fingerprint splits back into exactly the six fields |
| Fingerprint.SignatureTokens | deduplicacao_assinatura.py:23-28 | when the birth date and the sex are single tokens, splitting the fingerprint of names with two or more tokens gives the six fields back |
| Fingerprint.AssembleOneToken | deduplicacao_assinatura.py:21-28 | for a one-token student name `p`, the fingerprint starts with `p ('p', 'p')` |
| Fingerprint.SignatureOneToken | deduplicacao_assinatura.py:21-28 | when the student's name normalises to one token `p`, the fingerprint starts with `p ('p', 'p')` |
| Fingerprint.AssembleNonEmpty | deduplicacao_assinatura.py:28 | every fingerprint that is built holds at least five spaces, so it is non-empty and `len_max` is positive |
| Fingerprint.RenderedLastPart | deduplicacao_assinatura.py:21 | the written and the intended `extract_first_last` agree on the first token and on a `Tok` second field; the rendered tuple is `2·\|p\| + 8` characters long |
| Fingerprint.OneTokenDiffers | deduplicacao_assinatura.py:21-28 | for a one-token student name the written fingerprint is longer than the intended one by at least `\|p\| + 8`, so the two differ |
| Fingerprint.ExtractFirstLastIntended | deduplicacao_assinatura.py:21 | both components are tokens; the first is the first token; the second is the last token, the stripped name's suffix after its last whitespace (`Strings.TrailingRun`); for a one-token name the second equals the first |
| Fingerprint.AssembleIntended | deduplicacao_assinatura.py:21-28 | with the intended definition, fails with IndexError exactly when either stripped name has no token, as `Assemble` does |
| Fingerprint.SignatureIntended | deduplicacao_assinatura.py:21-28 | with the intended definition, fails with IndexError exactly when either normalised name is empty, as `Signature` does |
| Fingerprint.AssembleIntendedTokens | deduplicacao_assinatura.py:23-28 | with the intended definition, every fingerprint of stripped names with at least one token each, and a one-token birth date and sex, splits into the six fields |
| Fingerprint.SignatureIntendedTokens | deduplicacao_assinatura.py:23-28 | with the intended definition and a one-token birth date and sex, every fingerprint, one-token names included, splits into first, last, birth date, mother's first, mother's last and sex |
| Similarity.TokenSet | deduplicacao_assinatura.py:37-38 | `set(s.split())` holds only non-empty whitespace-free tokens, and is empty exactly when the string is all whitespace |
| Similarity.IntersectionUnion | deduplicacao_assinatura.py:39-40 | the intersection is no larger than the union, is as large only when the sets are equal, and the union is empty only when both sets are |
| Similarity.RatioBounds | deduplicacao_assinatura.py:41 | `inter / union` lies in [0, 1]; it is 0 exactly for an empty intersection and 1 exactly when the two sizes are equal |
| Similarity.Jaccard | deduplicacao_assinatura.py:36-41 | the score lies in [0, 1]; it is 0.0 exactly when the token sets share no token (the empty union included); it is 1.0 exactly when the token sets are equal and non-empty |
| Similarity.JaccardSymmetric | deduplicacao_assinatura.py:36-41 | the order of the two strings does not matter |
| Similarity.JaccardSelf | deduplicacao_assinatura.py:36-41 | a string with a token scores 1.0 against itself |
| Similarity.DistanceUpper | deduplicacao_assinatura.py:59 | `Distance`, the unit-cost edit distance between prefixes that stands in for Spark's `levenshtein`, is at most the longer prefix length |
| Similarity.DistanceLower | deduplicacao_assinatura.py:59 | the distance is at least the difference of the prefix lengths |
| Similarity.Levenshtein | deduplicacao_assinatura.py:59 | the distance is at most the longer length and at least the length difference |
| Similarity.DistanceSelf | deduplicacao_assinatura.py:59 | equal prefixes are at distance 0 |
| Similarity.DistanceZero | deduplicacao_assinatura.py:59 | distance 0 means equal lengths and equal prefixes |
| Similarity.LevenshteinZeroIff | deduplicacao_assinatura.py:59 | the distance is 0 exactly when the strings are equal |
| Similarity.DistanceSymmetric | deduplicacao_assinatura.py:59 | swapping the strings does not change the distance between prefixes |
| Similarity.LevenshteinSymmetric | deduplicacao_assinatura.py:59 | the distance does not depend on argument order |
| Similarity.LevenshteinTable | deduplicacao_assinatura.py:59 | the two-row dynamic-programming table returns exactly the Levenshtein distance |
| Similarity.LenMax | deduplicacao_assinatura.py:60 | the result is at least both lengths and equals one of them |
| Similarity.LevScore | deduplicacao_assinatura.py:59-61 | `1 - lev_dist/len_max` lies in [0, 1], and is 1.0 exactly when the strings are equal |
| Similarity.ScoreFinal | deduplicacao_assinatura.py:62 | for inputs in [0, 1] the weighted score lies in [0, 1]; it is 1.0 exactly when both inputs are 1.0 |
| Similarity.ScoreFinalExample | deduplicacao_assinatura.py:62 | jaccard 0.8 with lev_score 0.9 gives 0.825 |
| Similarity.PairScore | deduplicacao_assinatura.py:58-62 | the pair's `score_final` lies in [0, 1]; a score of 1.0 means equal fingerprints, and equal fingerprints with a token score 1.0 |
| Classifier.Classify | deduplicacao_assinatura.py:65-71 | each status holds exactly under its rule and the failure of every earlier one: `Q001` iff no key; `OK` iff keyed and score ≥ 0.75; `Q002` iff keyed and score < 0.60; `Q006` iff keyed, 0.60 ≤ score < 0.75, and both birth date and sex differ; `VALIDAR_NOMES` otherwise |
| Classifier.CodeInjective | deduplicacao_assinatura.py:66-70 | the five labels are pairwise distinct |
| Classifier.Code | deduplicacao_assinatura.py:66-70 | the label has at least two characters and starts with `Q` exactly for `Q001`, `Q002` and `Q006`; `CodeInjective` shows the five labels differ |
| Classifier.IsLogged | deduplicacao_assinatura.py:81 | `startswith("Q")` holds exactly for `Q001`, `Q002` and `Q006` |
| Classifier.KeyedNeverQ001 | deduplicacao_assinatura.py:66 | a pair with a key is never labelled `Q001` |
| Classifier.RuleOrderExamples | deduplicacao_assinatura.py:65-71 | the first matching rule wins: a missing key beats a perfect score, and a low score beats differing birth date and sex |
| Pipeline.Joins | deduplicacao_assinatura.py:51-53 | the join condition never pairs a record with itself and only pairs records with equal non-null keys; `Candidates` and `CandidatesUnique` state the rest |
| Pipeline.Partners | deduplicacao_assinatura.py:49-54 | the pairs of one left row are exactly the rows it joins with |
| Pipeline.JoinAll | deduplicacao_assinatura.py:49-54 | a pair is produced exactly when its left row is on the left, its right row on the right, and the join condition holds |
| Pipeline.Candidates | deduplicacao_assinatura.py:49-54 | the candidate pairs are exactly the pairs of rows with equal non-null keys, a smaller left id and differing fingerprints |
| Pipeline.CandidatesUnique | deduplicacao_assinatura.py:49-54 | with distinct ids, no two candidates join the same two records, every candidate has `a.id < b.id` and differing fingerprints, and no pair also appears reversed |
| Pipeline.PartnersUnique | deduplicacao_assinatura.py:49-54 | with distinct ids, one left row is paired with each right row at most once |
| Pipeline.JoinAllUnique | deduplicacao_assinatura.py:49-54 | with distinct ids, the join produces each pair of records at most once |
| Pipeline.Score | deduplicacao_assinatura.py:57-62 | a joined pair's score lies in [0, 1), since its fingerprints differ |
| Pipeline.ClassifyPair | deduplicacao_assinatura.py:57-77 | (`Describes`) keeps the pair's ids and key; its score is the `score_final` of the two fingerprints (`PairScore`) and lies in [0, 1); it is never `Q001`; `OK` exactly at a score of at least 0.75, `Q002` exactly below 0.60, `Q006` exactly in between with both birth date and sex differing, `VALIDAR_NOMES` exactly in between with birth date or sex equal |
| Pipeline.Results | deduplicacao_assinatura.py:57-77 | one classified row per candidate pair, in join order; row k is described by candidate k (`Describes`): same ids and key, the score of the two fingerprints, and the status the rule chain gives from that score, the birth dates and the sexes; no row is `Q001` |
| Pipeline.SameTokensIngested | deduplicacao_assinatura.py:57-80 | a candidate pair whose fingerprints have the same non-empty token set scores at least 0.75, is `OK`, and goes to ingestion |
| Pipeline.SameTokensScore | deduplicacao_assinatura.py:57-62 | differing fingerprints with the same non-empty token set score at least 0.75 |
| Pipeline.DisjointTokensLogged | deduplicacao_assinatura.py:57-81 | a candidate pair whose fingerprints share no token scores below 0.60, is `Q002`, and goes to the log |
| Pipeline.DisjointTokensScore | deduplicacao_assinatura.py:57-62 | differing fingerprints that share no token score at most 0.25 |
| Pipeline.IngestPairs | deduplicacao_assinatura.py:80 | keeps exactly the `OK` pairs |
| Pipeline.LogPairs | deduplicacao_assinatura.py:81 | keeps exactly the `Q001`, `Q002` and `Q006` pairs, the labels that start with `Q` |
| Pipeline.Unrouted | deduplicacao_assinatura.py:80-81 | keeps exactly the `VALIDAR_NOMES` pairs |
| Pipeline.RoutingPartition | deduplicacao_assinatura.py:80-81 | every classified pair is counted in exactly one of ingestion, the log and the `VALIDAR_NOMES` remainder |
| Pipeline.ValidarNomesUnrouted | deduplicacao_assinatura.py:80-81 | a `VALIDAR_NOMES` pair reaches neither ingestion nor the log |
| Pipeline.ResultKeys | deduplicacao_assinatura.py:84 | the distinct keys of the classified pairs are exactly the left keys of the candidate pairs |
| Pipeline.UniqueRows | deduplicacao_assinatura.py:85 | keeps exactly the rows whose key is NULL or not in the key set, and no more rows than the input |
| Pipeline.UniqueIffNoConflict | deduplicacao_assinatura.py:84-85 | a record is kept as unique exactly when it has no key, or no two records with its key pass the join condition |
| Pipeline.Deduplicate | deduplicacao_assinatura.py:79-86 | ingestion pairs are exactly the classified `OK` pairs, all scoring at least 0.75; the log is exactly the `Q002` and `Q006` pairs; unique records are exactly the records with no key or no conflicting pair under their key |
| Pipeline.NullKeyIsUnique | deduplicacao_assinatura.py:85 | a record with a NULL key is always ingested as unique |
| Pipeline.IdenticalGroupIsUnique | deduplicacao_assinatura.py:85 | a record whose key group shares one fingerprint is ingested as unique |
| Pipeline.PairedNotUnique | deduplicacao_assinatura.py:85 | neither record of a candidate pair is ingested as unique |

## Left out

- Spark session creation, imports, the UDF decorators and their type registrations (lines 3-9, 31-35): the model works on the underlying Python functions directly.
- Reading `df` and the fingerprint column of line 46, which is commented out: pipeline rows arrive with their `assinatura` already set. `Fingerprint.Signature` is the function that column would hold.
- The `saveAsTable` sinks (lines 89-90): these are I/O. The model returns the outputs as values.
- Distributed execution: partitioning and join strategy are not modelled. The self-join is a sequential comprehension, left row by left row. The set-valued results (`distinct`, the anti-join) do not depend on that order.
- `unionByName` at line 86 would fail, because pair rows and record rows have different columns. The model keeps ingestion as two collections, the `OK` pairs and the unique records, in `Pipeline.Outcome`.
- Single-precision floats (`FloatType`, `cast("float")`): scores are exact reals, so threshold comparisons are exact. Rounding near 0.60 and 0.75 is not captured.
- Unicode: `str.lower()`, `\b`, `\w` and `\s` are modelled on ASCII only. Word characters are letters, digits and `_`. Whitespace is space, tab, LF, CR, VT, FF and the separators U+001C to U+001F, which Python's `str.split()` and `\s` also treat as whitespace; other Unicode whitespace is not.
- Python `repr` escaping inside the tuple text of line 21: quotes, backslashes, and every character that `str.isprintable()` rejects, among them U+0000 to U+0008, U+000E to U+001B and U+007F to U+00A0 (written as `\xNN`). `Fingerprint.Render` assumes tokens hold none of them. The characters U+0009 to U+000D and U+001C to U+001F are whitespace, so a token never holds them.
- Spark's built-in `levenshtein` is not part of this model. The standard unit-cost recursive definition stands in for it.
- Spark three-valued NULL logic beyond the key: `data_nasc` and `sexo` are non-null strings compared verbatim. The names are `Option`s read as `""` when absent.
- Fingerprints are not computed inside the pipeline. A fingerprint that fails (IndexError) would abort the whole job, and that abort is not represented in `Pipeline`.
- Fingerprint.ExtractFirstLast: requires at least one token, as `partes[0]` does. `Assemble` and `Signature` check this and return `Failure(IndexError)` instead.
- Similarity.LevScore: requires a non-empty string. The source divides by `len_max` unguarded, so an empty pair would give NULL with Spark's ANSI mode off, and raise DIVIDE_BY_ZERO with `spark.sql.ansi.enabled` on, the default since Spark 4. Paired fingerprints always differ, so `Pipeline.Score` can always call it.

## Findings

| source | as written | input that shows it | evidently intended | confidence | as-written member | corrected member |
|---|---|---|---|---|---|---|
| deduplicacao_assinatura.py:21 | `return partes[0], partes[-1] if len(partes) > 1 else (partes[0], partes[0])` parses as `(partes[0], (partes[-1] if … else (partes[0], partes[0])))`, so for a one-token name the second value is a tuple and the fingerprint of line 28 holds its text `('p', 'p')` | a student named `Ana`: the fingerprint starts `ana ('ana', 'ana') …` instead of `ana ana …` | `(partes[0], partes[-1])` for every name, so a one-token name repeats its token and every fingerprint has six single-space fields | high; not executed | Fingerprint.OneTokenDiffers | Fingerprint.SignatureIntendedTokens |

`Fingerprint.ExtractFirstLast`, `Fingerprint.AssembleOneToken` and
`Fingerprint.SignatureOneToken` model the code as written. `OneTokenDiffers`
proves that the written fingerprint is longer than the intended one, so the two
differ. `ExtractFirstLastIntended`, `AssembleIntended` and `SignatureIntended` are
the corrected definitions. `SignatureIntendedTokens` proves that every corrected
fingerprint splits into the six fields. The pipeline takes the fingerprint column as
input, so it is unaffected by the choice.

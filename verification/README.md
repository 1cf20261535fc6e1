# MedConnect core: provider directory filter and triage prompt builder

A Dafny model of the two pure cores of the MedConnect symptom-intake assistant
(`main.py`).

- **Provider directory filter** (`filter_doctors`). Given the provider table,
  a specialty and a location, it first keeps the rows whose Department equals
  the specialty, ignoring letter case. Only when that selects nothing does it
  consult a fixed synonym table keyed by the lower-cased specialty. The
  fallback keeps the rows whose Department is *literally* one of the mapped
  departments. If the location is non-empty, it then keeps the rows whose
  lower-cased District, Upazila or Address contains the lower-cased location;
  any one of the three is enough. Finally it drops each remaining row on an
  independent availability draw and keeps table order. The random draw is an
  explicit oracle `draw: nat -> bool`: `draw(i)` is the draw for the i-th
  candidate in iteration order. The loop itself, `Directory.DropUnavailable`,
  takes the draws as a sequence with one flag per candidate.
- **Triage prompt builder** (the string assembly in `analyze_symptoms`). It
  emits four fixed header parts. It then adds one line per input that is
  present, in the order `Keywords: …`, `Questions: …`, `Description: …`,
  `User also uploaded N document(s)`. Everything is joined with `"\n"`. The
  model pairs the builder with a parser, which reads the parts back.

Modules:

- `Seqs` (seqs.dfy): the subsequence relation, selection by a predicate, and
  selection by keep/drop flags.
- `Text` (text.dfy): ASCII lower-casing, substring search, join/split, and
  decimal rendering.
- `Wrappers` (wrappers.dfy): `Option`.
- `Directory` (directory.dfy): the query.
- `Triage` (triage.dfy): the prompt.

Two behaviours of the code are worth pointing out:

- The synonym fallback uses `isin` (main.py:91), which is case-sensitive,
  unlike the primary match at main.py:64. `Directory.FallbackIsCaseSensitive`
  exhibits a `GENERAL SURGERY` row that `general practice` does not find.
- `analyze_symptoms` accepts any dictionary; only the button handler checks
  for emptiness (main.py:266). So `Triage.PromptParts` has no precondition.

The pre-draw candidate list `Directory.Candidates` is a pure function of the
table, the specialty and the location. Two identical queries against the same
table therefore draw from the same candidates.

## Model

| member | source | states |
|---|---|---|
| Seqs.Filter | main.py:64-65 | boolean-mask selection returns an order-preserving subsequence of the table whose every row satisfies the predicate |
| Seqs.FilterMembers | main.py:64-65 | a row is selected iff it is in the table and satisfies the predicate |
| Seqs.FilterIsMask | main.py:64-65 | selection by a predicate keeps every position whose row satisfies it, duplicates included: it equals the mask of the predicate's flags, and its length is the number of matching positions |
| Seqs.MaskOnlyFlagged | main.py:106-113 | a row that survives the flags sits at some position whose flag is set |
| Seqs.Mask | main.py:106-113 | keeping the rows whose flag is set yields an order-preserving subsequence whose length is the number of set flags |
| Seqs.MaskAllTrue | main.py:106-113 | with every flag set, nothing is dropped |
| Seqs.SubseqTransitive | main.py:61-118 | successive filtering steps compose: a subsequence of a subsequence of the table is a subsequence of the table |
| Text.Contains | main.py:98-100 | the location test is plain substring search: true iff the needle occurs at some position of the field |
| Text.Lower | main.py:64 | lower-casing keeps the length and leaves no upper-case ASCII letter |
| Text.LowerSameLetter | main.py:64 | lower-casing replaces each character by the same letter up to ASCII case, and the lower-cased string is the only string of the same length that does so without an upper-case ASCII letter |
| Text.LowerIdempotent | main.py:64 | lower-casing is idempotent |
| Text.LowerIgnoresCase | main.py:64 | two strings lower-case alike iff they have the same length and differ only in the case of ASCII letters, so the Department comparison ignores letter case and nothing else |
| Directory.SpecialtyMatches | main.py:63-92 | the specialty step returns an order-preserving subsequence of the table |
| Directory.Candidates | main.py:63-102 | the rows entering the availability draw are an order-preserving subsequence of the table |
| Directory.LocationOccurs | main.py:96-101 | a row matches iff the lower-cased location occurs at some position in at least one of its lower-cased District, Upazila or Address |
| Directory.LocationMatches | main.py:95-102 | the location step returns an order-preserving subsequence whose rows all match the location; an empty location leaves the rows unchanged |
| Directory.FilterDoctors | main.py:54-118 | the query result is an order-preserving subsequence of the candidates and of the table, with exactly as many rows as there are positive draws among the candidates |
| Directory.DropUnavailable | main.py:106-113 | the availability loop keeps exactly the candidates whose draw is positive, in order |
| Directory.ExactMatchWins | main.py:64-68 | when some Department equals the specialty ignoring case, the synonym table is not consulted and exactly those rows are selected |
| Directory.ExactMatchResults | main.py:64-68 | when some Department equals the specialty ignoring case, every returned row's Department equals it ignoring case |
| Directory.SynonymFallback | main.py:68-92 | with no case-insensitive match and a synonym key, a row is selected iff it is a table row whose Department is literally one of the mapped departments |
| Directory.SynonymSelection | main.py:68-92 | with no case-insensitive match and a synonym key, the specialty step equals the selection, from the whole table, of the rows whose Department is literally one of the mapped departments, duplicates included |
| Directory.GeneralPracticeFallback | main.py:78-92 | "general practice" in any letter case falls back to exactly the rows whose Department is "General Medicine" or "General Surgery" |
| Directory.FallbackIsCaseSensitive | main.py:89-92 | the fallback compares departments literally: a "GENERAL SURGERY" row is not found for "general practice" |
| Directory.UnknownSpecialtyEmpty | main.py:68-92 | with no case-insensitive match and no synonym key, the candidate list is empty for every location, and so is the query result |
| Directory.NonexistentSpecialtyScenario | main.py:64-118 | "Nonexistent Specialty" with an empty location returns nothing when no Department is spelled that way |
| Directory.LocationFilterSelects | main.py:95-102 | with a non-empty location, a specialty match is a candidate iff its lower-cased District, Upazila or Address contains the lower-cased location |
| Directory.LocationSelection | main.py:95-102 | with a non-empty location, the number of candidates is the number of positions among the specialty matches whose row matches the location, so duplicate rows are kept |
| Directory.AddressAloneSuffices | main.py:95-102 | a specialty match whose Address contains the location is a candidate, whatever its District and Upazila hold |
| Directory.EmptyLocationKeepsAll | main.py:95 | with an empty location the candidates are exactly the specialty matches |
| Directory.ResultsAreMatches | main.py:95-113 | every returned row is a table row, a specialty match, and, when a location is given, a location match |
| Directory.AllAvailableKeepsCandidates | main.py:106-113 | with every draw positive, the result equals the candidate list in order |
| Directory.AvailableCandidateReturned | main.py:106-113 | a candidate whose draw is positive is in the result |
| Directory.ReturnedIffAvailable | main.py:106-113 | a row is in the result iff it is the candidate at some position whose draw is positive |
| Directory.CardiologyDhakaScenario | main.py:64-113 | a "Cardiology" row in district "Dhaka" is a candidate for ("Cardiology", "dhaka") and is returned whenever its draw is positive |
| Triage.PromptParts | main.py:147-167 | the parts are the four header parts followed by one line per present input |
| Triage.PromptPartsRoundTrip | main.py:147-167 | reading the parts back recovers which inputs were present, their text and the document count, so each line is present iff its key is, in the fixed order |
| Triage.BuildPrompt | main.py:169 | the prompt always opens with the joined header, and equals it exactly when no input is present |
| Triage.PromptLines | main.py:169 | when no text input contains a newline, the prompt's lines are the header's lines followed by exactly the optional lines |
| Text.NatToString | main.py:167 | the document count is rendered as a non-empty string of decimal digits with no leading zero |
| Text.ParseNatToString | main.py:167 | the rendered document count reads back as the count |
| Text.Join | main.py:169 | the joined string starts with the first part, and its length is the parts' total length plus one separator per gap |
| Text.JoinAppend | main.py:169 | joining two non-empty lists of parts is joining each and putting one separator between them, whatever the parts contain |
| Text.SplitJoin | main.py:169 | joining parts that contain no separator and splitting again gives back the parts |

## Left out

- Streamlit UI, tabs, buttons, expanders and session-state flags
  (main.py:19-39, 178-385): presentation only.
- Loading the table from `Doctor_Directory.csv`, and the `None` return when
  loading fails (main.py:42-51, 55-59). This is file I/O, so the table is a
  parameter.
- The Gemini model construction, the generation settings (temperature 0.7,
  top-p 0.95, top-k 40, 1024 output tokens), the `generate_content` call and
  the `.strip()` of its response (main.py:134-145, 172-173). The response of
  an external service cannot be specified.
- `random.random() > 0.3` (main.py:109): replaced by the `draw` oracle;
  probabilities are not modelled.
- Text.Contains: `str.contains` treats the location as a regular expression.
  The model uses plain substring search. A location that is not a valid
  regular expression, such as `(` or `*x`, makes `str.contains` raise
  `re.error`; the model has no such exception path. A location holding other
  regex metacharacters (such as `.`) can match where a substring would not.
  Empty (NaN) cells are not modelled.
- Text.Lower: only ASCII letters are lower-cased. Python's `str.lower` also
  folds other Unicode letters.
- The unused `preferred_date` and `preferred_time` parameters of
  `filter_doctors`.
- The booking confirmation mock (main.py:372-380).
- Triage.PromptLines: stated only for inputs without newlines. A multi-line
  text input adds lines, and the parts-level statement
  (`Triage.PromptPartsRoundTrip`) covers that case.
- The exact character content of the header lines is not reasoned about.
  The prompt's lines are stated relative to the split of the joined header.

# LV-Positionen import into Firestore — a Dafny model

`import_to_firestore.js` reads a list of bill-of-quantities positions
(LV-Positionen: heating and plumbing work items) and writes one document
per position into the Firestore collection `lv_positionen`. For each
position it:

- derives the document id from `position_nr`, with every `.` replaced by `_`;
- builds the document object, where each missing field becomes `''` or `0`;
- adds a list of search words (`suchwoerter`) taken from six text fields;
- adds fixed metadata.

The writes are queued as `set(…, { merge: true })` into write batches of at
most 500 writes. The batches are committed one after the other. Finally the
script counts the positions per main group (`hauptgruppe`). A position
without a main group is counted under `Unbekannt`.

The model has one module per concern:

- `Wrappers`: `Option` and `Result`.
- `Seqs`: flattening, distinctness, first occurrence, and a map over sequences.
- `Positions`: the input record and the document written. JavaScript's `||` is modelled here, where `undefined`, `null`, `''` and `0` count as false.
- `Suchwoerter`: `generateSuchwoerter`, stage by stage, with the properties of each stage and of the whole pipeline. Every search word is a word of the lower-cased text: it has at least 3 word characters and a separator or an end of the text on both sides. Below the cap of 40 every such word is a search word. The words keep the order of their first occurrence in the text, so above the cap the 40 words kept are the first 40 distinct ones.
- `Mapping`: the document id, the document, and the write for one position.
- `Batching`: the build loop, as a method proved against a reference partition `Chunks`.
- `Summary`: the group count, as a method proved against a recursive reference `Tally` and a counting function `Count`.
- `Import`: the whole `importLVPositionen`. The store is a `Firestore` class whose state is the list of batches committed so far.

Two behaviours of the code are worth stating:

- **A position without `position_nr`.** The code does not skip the record. `pos.position_nr.replace` throws a `TypeError` inside the build loop, so the run stops before any batch is committed. The model returns `MissingPositionNr(i)` for the first such index and commits nothing.
- **Dotted numbers such as `"2.3.1"`.** They are never a search word: the cleaning step replaces `.` by a space before splitting. `Suchwoerter.DottedNumberIsNoSearchWord` proves this.

## Model

The functions and predicates that model source expressions directly have no rows of their own: their contracts are the lemmas about them listed below. They are `Suchwoerter.GenerateSuchwoerter` (the whole of `generateSuchwoerter`), `Suchwoerter.SearchFields` and `Suchwoerter.Text` (the six-field array, with `undefined`/`null` joined as `''`), `Suchwoerter.Join`, `Suchwoerter.LowerChar`, `Suchwoerter.IsSpace`, `Suchwoerter.IsKept` and `Suchwoerter.BlankChar` (`\s` and the class `[a-zäöüß0-9\s\/\-]`), `Suchwoerter.TextWords` and `Suchwoerter.FieldWords` (the cleaned, split and filtered words of a text and of one field), `Suchwoerter.Cap` (`slice(0, 40)`), `Positions.OrText` and `Positions.OrNumber` (`||` with a default), `Mapping.ToDocument`, `Batching.Chunks`, `Summary.Tally` and `Summary.GroupKey`.

| member | source | states |
|---|---|---|
| Mapping.DocId | import_to_firestore.js:63 | the id has the length of `position_nr`; each character is the original, except that `.` becomes `_`; no `.` is left in the id |
| Mapping.DocIdIdempotent | import_to_firestore.js:63 | an id without `.` is unchanged, so deriving the id of an id changes nothing |
| Mapping.DocIdExample | import_to_firestore.js:62-63 | `"1.1.10"` becomes `"1_1_10"` |
| Mapping.ToDocumentFields | import_to_firestore.js:67-86 | `position_nr` is copied verbatim; every other field is the record's value, or `''`/`0` when absent; `suchwoerter` are the record's search words; the name, the active flag and both timestamps are the fixed metadata |
| Mapping.WriteFor | import_to_firestore.js:63-88 | a numbered position gives a write into `lv_positionen` under an id as long as its number and free of `.`; the document carries the record's `position_nr` and the fixed name and active flag |
| Mapping.Writes | import_to_firestore.js:61-97 | as many writes as positions |
| Mapping.WritesAt | import_to_firestore.js:61-97 | write `i` is the write of position `i`: one write per position, in input order |
| Suchwoerter.LowerCharCases | import_to_firestore.js:138 | lower-casing maps `A`–`Z` onto `a`–`z` letter for letter, `Ä`, `Ö`, `Ü`, `ẞ` onto `ä`, `ö`, `ü`, `ß`, and the Kelvin sign onto `k`; every other character, the kept class included, stays as it is |
| Suchwoerter.ToLower | import_to_firestore.js:138 | lower-casing keeps the length of the text |
| Suchwoerter.ToLowerAt | import_to_firestore.js:138 | lower-casing acts on each character separately |
| Suchwoerter.ToLowerKept | import_to_firestore.js:138 | text made only of kept characters is already lower case |
| Suchwoerter.Blank | import_to_firestore.js:143 | the cleaning step keeps the length of the text |
| Suchwoerter.BlankAt | import_to_firestore.js:143 | the cleaning step keeps each character of `[a-zäöüß0-9\s\/\-]` and replaces every other character by `' '` |
| Suchwoerter.BlankAppend | import_to_firestore.js:143 | cleaning a concatenation cleans each part |
| Suchwoerter.BlankKept | import_to_firestore.js:143 | text made only of kept characters is unchanged by the cleaning step |
| Suchwoerter.BlankSeparator | import_to_firestore.js:143 | a character that cannot belong to a word is whitespace after cleaning |
| Suchwoerter.BlankKeeps | import_to_firestore.js:143 | cleaned text holds only characters of `[a-zäöüß0-9\s\/\-]` |
| Suchwoerter.Split | import_to_firestore.js:144 | splitting gives at least one piece; text starting with whitespace gives an empty first piece |
| Suchwoerter.SplitRun | import_to_firestore.js:144 | a maximal run of whitespace at the front gives exactly one empty piece |
| Suchwoerter.SplitWordPrefix | import_to_firestore.js:144 | a word at the front is the start of the first piece |
| Suchwoerter.SplitWord | import_to_firestore.js:144 | a word followed by a whitespace run is one piece of its own, and splitting resumes after the run |
| Suchwoerter.SplitSingleWord | import_to_firestore.js:144 | text without whitespace is a single piece |
| Suchwoerter.SplitLength | import_to_firestore.js:144 | there are at most one more pieces than characters |
| Suchwoerter.SplitEndsInSpace | import_to_firestore.js:144 | text ending in whitespace has an empty last piece |
| Suchwoerter.SplitAfterSpace | import_to_firestore.js:144 | after text ending in whitespace, the split of the rest takes the place of that empty last piece |
| Suchwoerter.SplitFirstWord | import_to_firestore.js:144 | a word followed by whitespace or the end of the text is the first piece |
| Suchwoerter.SplitFinds | import_to_firestore.js:144 | a word with whitespace or an end of the text on both sides is one of the pieces |
| Suchwoerter.SplitPieceAt | import_to_firestore.js:144 | each piece occurs in the text with whitespace or an end of the text on both sides; the first piece starts the text |
| Suchwoerter.SplitPieces | import_to_firestore.js:144 | the pieces contain no whitespace, and only characters of the text |
| Suchwoerter.SplitKeepsNonSpace | import_to_firestore.js:144 | the pieces joined back together are the text with its whitespace removed |
| Suchwoerter.SplitSpaces | import_to_firestore.js:144 | whitespace-only text splits into empty pieces only |
| Suchwoerter.LongWords | import_to_firestore.js:145 | the length filter never adds a word |
| Suchwoerter.LongWordsMembers | import_to_firestore.js:145 | a word survives the filter exactly when it occurs and has at least 3 characters |
| Suchwoerter.LongWordsAppend | import_to_firestore.js:145 | filtering a concatenation filters each part, so the kept words stay in their order |
| Suchwoerter.LongWordsOfShort | import_to_firestore.js:145 | a list of words shorter than 3 characters filters to nothing |
| Suchwoerter.Dedup | import_to_firestore.js:141-146 | deduplication never lengthens the list |
| Suchwoerter.DedupMembers | import_to_firestore.js:141-146 | deduplication keeps exactly the words that occur and repeats none |
| Suchwoerter.DedupPrefix | import_to_firestore.js:141-146 | deduplicating a longer list keeps the deduplicated shorter list as its prefix |
| Suchwoerter.DedupHead | import_to_firestore.js:141-146 | the first word stays first |
| Suchwoerter.DedupFirstOccurrence | import_to_firestore.js:141-146 | the deduplicated words keep the order of their first occurrence, as iterating a `Set` does |
| Suchwoerter.CapDedup | import_to_firestore.js:141-149 | the first 40 distinct words form a prefix in first-occurrence order; fewer than 40 only when no word is left out |
| Suchwoerter.JoinEmptyParts | import_to_firestore.js:131-138 | joining empty fields with `' '` gives only spaces |
| Suchwoerter.CleanedWordsWellFormed | import_to_firestore.js:142-145 | every word kept from a cleaned text has at least 3 characters, all of them word characters |
| Suchwoerter.CandidatesWellFormed | import_to_firestore.js:130-145 | every candidate word of a position has at least 3 characters, all of them word characters |
| Suchwoerter.SuchwoerterWellFormed | import_to_firestore.js:130-150 | a position gets at most 40 search words; they are distinct, at least 3 characters long, and made only of `a`–`z`, `ä ö ü ß`, digits, `/` and `-` |
| Suchwoerter.SuchwoerterFirstOccurrence | import_to_firestore.js:130-150 | the search words are a prefix of the deduplicated candidates, at most 40 of them, ordered by where each first occurs among the candidates; every candidate is one of them unless all 40 places are taken |
| Suchwoerter.NoWordCharsNoWords | import_to_firestore.js:142-145 | text without word characters gives no words |
| Suchwoerter.NoTextNoSuchwoerter | import_to_firestore.js:130-150 | a position whose six search fields are all empty or absent gets no search words |
| Suchwoerter.DottedNumberIsNoSearchWord | import_to_firestore.js:130-150 | no search word contains `.`, so a position number such as `2.3.1` is never one |
| Suchwoerter.CleanedPieceIsWord | import_to_firestore.js:138-144 | a piece of word characters in the cleaned text stands at the same place in the lower-cased text, with separators on both sides |
| Suchwoerter.TextWordIsSearchWord | import_to_firestore.js:130-150 | every word of at least 3 word characters in the lower-cased joined text, with a non-word character or an end of the text on both sides, is a candidate, and is a search word unless all 40 places are taken |
| Suchwoerter.SearchWordIsTextWord | import_to_firestore.js:130-150 | conversely, every search word is such a word of the lower-cased joined text |
| Suchwoerter.FirstWordIsFirstSearchWord | import_to_firestore.js:130-150 | a word that opens the lower-cased text, followed by a separator or the end, is the first search word |
| Suchwoerter.TextWordsWordFront | import_to_firestore.js:142-145 | a word opening a text, followed by a separator or the end, comes before all other words of the text, and counts when it has at least 3 characters |
| Suchwoerter.TextWordsSeparatorFront | import_to_firestore.js:142-145 | separators opening a text, before a word or the end, add no word |
| Suchwoerter.TwoTextWords | import_to_firestore.js:142-145 | a text opening with two long words and separators between them yields those two words first, in text order, then the words of the rest |
| Suchwoerter.CapDedupTwo | import_to_firestore.js:141-149 | two different words at the front stay the first two after deduplication and the cap |
| Suchwoerter.TwoWordsInOrder | import_to_firestore.js:130-150 | two different long words opening the lower-cased text are the first two search words, in text order |
| Suchwoerter.ToLowerAppend | import_to_firestore.js:138 | lower-casing a concatenation lower-cases each part |
| Suchwoerter.TextWordsSepAny | import_to_firestore.js:142-145 | separators in front of any text add no word |
| Suchwoerter.TextWordsAppendSep | import_to_firestore.js:142-145 | two texts with separators between them give the words of the first, then those of the second |
| Suchwoerter.TextWordsJoin | import_to_firestore.js:138-145 | joining two texts with `' '` keeps their words apart: the words of the first, then those of the second |
| Suchwoerter.JoinFieldWords | import_to_firestore.js:131-145 | a field joined in front with `' '` puts its words in front of those of the other fields |
| Suchwoerter.SixFieldWords | import_to_firestore.js:131-145 | six fields joined with `' '` give the words of each field in turn |
| Suchwoerter.CandidatesByField | import_to_firestore.js:130-145 | the candidates are the words of `position_nr`, `kurztext`, `beschreibung`, `hauptgruppe`, `untergruppe` and `mengeneinheit`, in that order; an absent field contributes no word |
| Batching.ChunksPartition | import_to_firestore.js:56-102 | the reference batches, concatenated, give back all writes; every batch but the last has 500 writes, and the last has 1 to 500 |
| Batching.WellSizedIsChunks | import_to_firestore.js:56-102 | any batching that concatenates to the writes with those sizes is the reference batching |
| Batching.ChunksCount | import_to_firestore.js:56-102 | the number of batches is the least one that holds every write; there are no batches exactly when there are no writes |
| Batching.ChunksLocate | import_to_firestore.js:56-102 | write number `k·500 + j` is write `j` of batch `k` |
| Batching.BatchOfWrite | import_to_firestore.js:56-102 | write `i` is in batch `i / 500`, at position `i % 500` |
| Batching.WritesStep | import_to_firestore.js:61-88 | one more numbered position appends exactly its write |
| Batching.Finish | import_to_firestore.js:99-102 | pushing the last, partly filled batch only when it is non-empty completes the reference batching |
| Batching.BuildBatches | import_to_firestore.js:56-102 | succeeds exactly when every position has `position_nr`; otherwise it reports the first position without one. On success the batches hold all writes in order, in batches of 500 with a non-empty last one; they are the reference batching, there are ⌈n/500⌉ of them, and the total count is n |
| Summary.GroupKeyCases | import_to_firestore.js:118 | the group is `hauptgruppe` when it is non-empty, and `Unbekannt` when it is absent or empty; it is never empty |
| Summary.Count | import_to_firestore.js:117-120 | a group never counts more positions than there are |
| Summary.TallyCounts | import_to_firestore.js:116-120 | the summary holds exactly the groups with at least one position, each with its number of positions |
| Summary.TallyKeys | import_to_firestore.js:116-120 | a group is in the summary exactly when some position has that group |
| Summary.SumValuesRemove | import_to_firestore.js:116-120 | a sum over the summary may take any group out first |
| Summary.SumValuesUpdate | import_to_firestore.js:119 | raising one group's count raises the sum by the same amount |
| Summary.TallyTotal | import_to_firestore.js:116-120 | the counts add up to the number of positions |
| Summary.Summarize | import_to_firestore.js:116-120 | the summary loop gives exactly the groups that occur, each with its number of positions |
| Summary.TallyExample | import_to_firestore.js:116-120 | two `Heizung` positions and one without a group give `Heizung: 2, Unbekannt: 1` |
| Import.Firestore.constructor | import_to_firestore.js:41 | a fresh store has committed nothing |
| Import.Firestore.Commit | import_to_firestore.js:108 | a commit appends the whole batch or, when it fails, nothing |
| Import.ImportLvPositionen | import_to_firestore.js:46-124 | a position without `position_nr` stops the import with nothing committed. A failed commit stops it with exactly the batches before it committed. Otherwise all reference batches are committed in order, and the report gives n positions, ⌈n/500⌉ batches and the per-group counts |

## Left out

- Firebase initialisation (lines 35-41): the service account and the app set-up. The store is the `Firestore` class.
- Reading and parsing `lv_positionen.json` (lines 51-52): the input is a sequence of `Position` values. Each field is either absent or has the type the code expects: `position_nr` and the text fields are strings, the amounts are numbers.
- A `position_nr` that is a number: `.replace` at line 63 would throw as for a missing one. The `Position` type excludes it, so the model does not cover this case.
- Other JSON values in a record (arrays, objects, booleans, or a number in a text field): they are outside the `Position` type.
- Every `console.log` line, including the order in which `Object.entries` lists the summary. The model returns the totals and the summary as a value.
- `SECURITY_RULES` and `INDEXES_JSON` (lines 155-217) and `module.exports` (line 220): configuration text and the module interface, not behaviour.
- The effect of the store applying a batch: merge semantics and server timestamp resolution. The model records which batches were committed.
- Batching.BuildBatches: the Firestore client's own checks on document paths are not modelled. The client rejects an empty id at `collection(...).doc(docId)` on line 64, synchronously and inside the build loop, and also treats `/` in an id as a path separator. So `position_nr: ""` aborts the real run before any commit, just like a missing number, while the model returns `Success` for it. These checks belong to the client library, not to the script's code.
- Import.Firestore.Commit: whether a commit succeeds (network, permissions, quotas) is not modelled; either outcome may happen.
- The asynchronous run and `.catch(console.error)` (line 223): a thrown error is modelled as a `Failure` result.
- Floating point: numbers are `real`, so `NaN` (falsy in JavaScript) does not occur, and `-0` is the same as `0`.
- Strings are sequences of code points, not UTF-16 code units. Characters outside the Basic Multilingual Plane are blanked by the cleaning step either way.
- Suchwoerter.LowerChar: `toLowerCase` is exact for `A`–`Z`, `Ä`, `Ö`, `Ü`, `ẞ` (U+1E9E) and the Kelvin sign (U+212A), the upper-case characters that lower-case into the kept class. Every other character keeps itself, because the model is character for character. The cleaning step blanks those characters either way, with one exception it does not capture: `İ` (U+0130) lower-cases to `i` plus U+0307, two code points. The real script keeps that `i`; the model blanks it.
- Key collisions: positions whose ids coincide (`"1.1"` and `"1_1"`, or a repeated number) are written twice to one document. The model keeps both writes in order and does not model the merged result.
- The summary keeps its counts in a plain JavaScript object, whose inherited names (`__proto__`, `constructor`, `toString`) behave differently as group names. The model uses a true map.

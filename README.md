# Statute segmentation of `ingest_law_data`

This project models the core of the `ingest_law_data` management command of a Vietnamese
corporate-law chatbot (`src/chatbot/management/commands/ingest_law_data.py`). The command turns
one flat statute text into a batch of `LawProvision` records. The model covers:

- **`clean_text`**, the normaliser (module `Normalizer`). It deletes bracketed footnote markers
  `[\w+]` and the stray characters U+FEFF and U+FFEF. It then collapses every whitespace run to
  a single space and strips both ends. Its contract is proved against a reference definition:
  `" ".join(t.split())` of the scrubbed text.
- **The walk** over the pattern's matches (module `Segmenter`). It tracks the four-field context
  (chapter, section, article number, article title). It emits gap text as article text without
  an identifier, and emits clauses and points. A point takes its parent clause from a reverse scan
  of the provisions emitted so far. The walk is a `method` proved against the function `Run`.
  Lemmas prove the context in force, the order of the output, the cursor, and what a single step
  emits.
- **The first-wins deduplicator** on the key `(document, article_number, provision_id)` (module
  `Deduplication`). It is a loop with a `seen` set, proved against `Dedup`. `Dedup` is in turn
  proved to be the order-preserving subsequence of first occurrences.
- **The pipeline** (module `Ingest`): skip to the first "Chương I", walk, deduplicate. The
  missing-anchor error is modelled as a `Result`.
- **Provision records and their key** (module `Provisions`), and worked cases (module `Scenarios`).

The regular expression of lines 52-59 is an input to the model. The walk receives the sequence of
matches (`Match`: a tagged `Token` plus its span) that `pattern.finditer` yields over the text
after the anchor. The predicate `WellFormedScan` states what `finditer` guarantees about those
spans: they are in bounds, in order and do not overlap.

## Model

| member | source | states |
|---|---|---|
| Normalizer.MarkerLengthIsMatch | src/chatbot/management/commands/ingest_law_data.py:16 | The length of the `[\w+]` match at the start of the text, or 0. When non-zero, that prefix is a marker, and no other prefix length is a marker. |
| Normalizer.RemoveMarkersKeepsPlainText | src/chatbot/management/commands/ingest_law_data.py:16 | Text without `[` passes the marker substitution unchanged. |
| Normalizer.RemoveMarkersDropsMarker | src/chatbot/management/commands/ingest_law_data.py:16 | A leading marker is deleted whole, and the scan resumes right after it. |
| Normalizer.RemoveStrayMarksClean | src/chatbot/management/commands/ingest_law_data.py:17 | The result contains neither U+FEFF nor U+FFEF. Text without them is returned unchanged. The result is never longer. |
| Normalizer.CollapseSpacesShape | src/chatbot/management/commands/ingest_law_data.py:18 | `re.sub(r'\s+', ' ', s)`: the result is empty iff the input is, and starts with whitespace iff the input does. It has no two adjacent whitespace characters and no whitespace other than ' ', and it keeps the absence of stray marks. |
| Normalizer.TrimStartShape | src/chatbot/management/commands/ingest_law_data.py:18 | `lstrip()`: a suffix of the input, everything removed is whitespace, and the result does not start with whitespace. |
| Normalizer.TrimEndShape | src/chatbot/management/commands/ingest_law_data.py:18 | `rstrip()`: a prefix of the input, everything removed is whitespace, and the result does not end with whitespace. |
| Normalizer.StripShape | src/chatbot/management/commands/ingest_law_data.py:18 | `strip()`: no whitespace at either end, and the single-space, plain-space and no-stray-mark properties are kept. |
| Normalizer.CollapseIsJoin | src/chatbot/management/commands/ingest_law_data.py:18 | For text not starting with whitespace, the collapse is the words joined by single spaces, plus one space if the text ended in whitespace. |
| Normalizer.WordsAreWords | src/chatbot/management/commands/ingest_law_data.py:18 | The pieces of `split()` are non-empty and hold no whitespace. |
| Normalizer.CleanTextIsTidy | src/chatbot/management/commands/ingest_law_data.py:13-19 | `clean_text` maps "" to "". Any result has no whitespace at either end, no double whitespace, only plain spaces, and no stray marks. |
| Normalizer.CleanTextJoinsWords | src/chatbot/management/commands/ingest_law_data.py:13-19 | `clean_text(s)` equals `" ".join(t.split())`, where t is s after marker and stray-mark removal. |
| Normalizer.CleanTextKeepsTidy | src/chatbot/management/commands/ingest_law_data.py:13-19 | Tidy text containing no '[' (non-empty, single plain spaces, no stray marks, no whitespace at either end), followed by any whitespace, comes out as the tidy text itself. |
| Segmenter.PySlice | src/chatbot/management/commands/ingest_law_data.py:74 | Python's `s[lo:hi]`: the sequence slice when the bounds are in order and in range, and "" when `hi <= lo`. |
| Segmenter.NextContext | src/chatbot/management/commands/ingest_law_data.py:85-92 | A chapter sets the chapter and clears the section. A section sets only the section. An article sets only the number and the cleaned title. Clauses and points leave the context as it was. |
| Segmenter.ParentClauseIsNearest | src/chatbot/management/commands/ingest_law_data.py:100-105 | The parent clause is the identifier of the last earlier provision of the same article whose identifier is present, non-empty and has no '.'. |
| Segmenter.ParentClauseFallsBack | src/chatbot/management/commands/ingest_law_data.py:101-105 | With no such provision, the parent is "unknown". |
| Segmenter.FindParentClause | src/chatbot/management/commands/ingest_law_data.py:100-105 | The reverse loop with early exit returns exactly `ParentClause`. |
| Segmenter.VisitMatch | src/chatbot/management/commands/ingest_law_data.py:71-113 | One loop iteration (gap text, context update, clause or point, cursor) yields the state `Step` describes. |
| Segmenter.Segment | src/chatbot/management/commands/ingest_law_data.py:61-113 | The loop from the empty context, empty output and cursor 0 returns `Run(...).out`. |
| Segmenter.StepEmits | src/chatbot/management/commands/ingest_law_data.py:74-113 | A step keeps the old output as a prefix. It then appends the gap provision (id None, pre-match context) exactly when the cleaned gap is non-empty and an article is open, then one clause or point provision. The point id is `<parent>.<letter>`, with the parent looked up before the gap provision. The step also sets the new context and cursor. |
| Segmenter.RunTracksContext | src/chatbot/management/commands/ingest_law_data.py:63-92 | After any scan, the tracked context is the context in force: the last chapter, the last section not followed by a chapter, and the last article (0 and "" when there is none). |
| Segmenter.SectionClearedByChapter | src/chatbot/management/commands/ingest_law_data.py:86-87 | After a chapter with no later section, the section label is "". |
| Segmenter.RunExtends | src/chatbot/management/commands/ingest_law_data.py:78-107 | Output is only appended: the output after a prefix of the scan is a prefix of the final output. |
| Segmenter.ProvisionsOfMatch | src/chatbot/management/commands/ingest_law_data.py:74-111 | The provisions contributed by match k sit after those of earlier matches. They carry the context in force before match k. |
| Segmenter.CursorAdvances | src/chatbot/management/commands/ingest_law_data.py:113 | The cursor ends at the end of the last match (0 for no match) and never decreases. |
| Segmenter.TrailingTextIgnored | src/chatbot/management/commands/ingest_law_data.py:70-113 | Text after the last match is never read: appending text to the body leaves the walk unchanged. |
| Deduplication.Deduplicate | src/chatbot/management/commands/ingest_law_data.py:115-124 | The `seen_keys` loop returns `Dedup(ps)`. The result has exactly the input's keys, pairwise distinct. |
| Deduplication.DedupKeys | src/chatbot/management/commands/ingest_law_data.py:115-124 | Every key of the input survives, and no other key appears. |
| Deduplication.DedupKeysDistinct | src/chatbot/management/commands/ingest_law_data.py:118-124 | No two kept provisions share a key. |
| Deduplication.DedupKeepsFirstOccurrences | src/chatbot/management/commands/ingest_law_data.py:118-124 | The kept list is `ps` at the increasing indices that hold the first provision of their key, and every such first occurrence is kept. |
| Deduplication.AtMostOnePerKey | src/chatbot/models.py:51 | The batch respects `unique_together`: two kept provisions with the same key are the same position. |
| Deduplication.FirstWins | src/chatbot/management/commands/ingest_law_data.py:120-124 | The first provision with a given key is in the output. |
| Ingest.FindFrom | src/chatbot/management/commands/ingest_law_data.py:68 | `re.search` for a literal: the first index at or after k where the needle occurs, or None when it occurs nowhere from k on. |
| Ingest.IngestContent | src/chatbot/management/commands/ingest_law_data.py:61-124 | The run fails exactly when "Chương I" occurs nowhere in the content. Otherwise the batch has pairwise distinct keys, and its keys are those of the walk over the text from the first occurrence of the anchor. |
| Ingest.PreambleIgnored | src/chatbot/management/commands/ingest_law_data.py:68-70 | Everything before the first "Chương I" is ignored: the pipeline gives the same batch on the content cut at the anchor. |
| Ingest.NoAnchorNoProvisions | src/chatbot/management/commands/ingest_law_data.py:68 | A content without "Chương I" yields the missing-anchor error whatever the scan. |
| Scenarios.PointsTakeTheirClause | src/chatbot/management/commands/ingest_law_data.py:93-111 | Clause n of article 1, then points a) and b), give the ids n, "n.a" and "n.b". The second point looks past the first point to the clause. |
| Scenarios.ArticleTextBeforeFirstClause | src/chatbot/management/commands/ingest_law_data.py:74-98 | Text between an article heading and its first clause becomes the article's provision without identifier (when it is non-empty after cleaning), followed by the clause. |
| Scenarios.RepeatedClauseKeepsFirst | src/chatbot/management/commands/ingest_law_data.py:93-124 | An article heading followed by two clauses with the same numeral: the walk emits two provisions, and the deduplicator keeps only the first, with the first clause's text. |

## Left out

- The regular expression of lines 52-59 is not modelled. The walk takes the match sequence as input, with each match's token and span. `WellFormedScan` states the span guarantees that `finditer` gives.
- The `int()` conversion of group 6 (line 91) is not modelled: an article match carries its number as a `nat`.
- Django ORM calls are not modelled: `update_or_create` (lines 29-32), the delete of old provisions (line 37) and `bulk_create` (line 127). The document is a `nat` id, and the model ends with the batch handed to `bulk_create`.
- The `transaction.atomic` rollback (line 24) is not modelled. So is the missing-file branch (lines 41-46): it returns normally, so the transaction commits after old provisions were already deleted. The model makes no claim that prior data survives a failed run.
- Reading the file and every `stdout` message are left out, including the duplicate warning of line 121. The model takes the file content as a string.
- Model fields the command does not set (status, modification_note, created_at) are left out. So are the database column lengths and the 32-bit range of `IntegerField`.
- Normalizer.IsWordChar: `\w` is approximated by ASCII letters, digits and `_`, the Latin-1 letters and numerals (ª ² ³ µ ¹ º ¼ ½ ¾ and U+00C0-U+00FF except × and ÷), and the Latin Extended-A/B and Latin Extended Additional letters. Letters, digits and numerals of every other block (IPA extensions, Greek, Cyrillic, CJK, fullwidth digits and so on) are not word characters in the model, so a marker such as `[α]` is kept where Python deletes it.
- Normalizer.CleanText: idempotence is not claimed, because the source does not have it. Removing the marker `[b]` from `[a[b]]` leaves the new marker `[a]`, which a second call would remove.
- The other files of the repository (views, embeddings, terminal chat, admin, URLs) are not part of this model.

Three behaviours of the code that the model keeps as written:

- The anchor is the first occurrence of the literal "Chương I" anywhere in the content (line 68). It is not line-anchored, and it matches the start of "Chương II".
- The parent-clause test requires a present, non-empty identifier without '.' (line 103).
- The key treats `None` identifiers as equal (line 119). A second text-without-clause provision of the same article is therefore dropped as a duplicate.

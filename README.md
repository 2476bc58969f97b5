# lawDetector analysis core in Dafny

lawDetector is a contract-analysis web service. A user uploads a contract as
`.txt`, `.docx` or `.pdf`. The service extracts the text and rejects
documents that are too short. It then makes three checks:

- It scans the text for dangerous legal phrases: 15 built-in ones plus up to
  1000 custom keywords stored in the database. If fetching them fails, only
  the built-in ones are scanned.
- It reports which of six required contract sections the text never
  mentions.
- It turns the two counts into a risk level, `LOW`, `MEDIUM` or `HIGH`.

A language model adds a free-text analysis, and the results are shown as
HTML fragments and returned as a JSON object.

This project models that deterministic core, `backend/server.py`, and proves
properties of it. The modules are:

- `Text` (`text.dfy`): the Python built-ins the core relies on, written out.
  These are `str.lower()` (length-preserving), `str.strip()`, `k in t`,
  `str(int)`, and the concatenation of a list of strings.
- `PhraseScanner` (`scanner.dfy`): `analyze_dangerous_phrases`.
  - `re.finditer` over an escaped keyword is modelled as `Occurrences`. It
    finds greedy, leftmost, non-overlapping matches, and an empty keyword
    matches at every index.
  - The scan is two nested loops that append records.
- `SectionChecker` (`sections.dfy`): `REQUIRED_SECTIONS` and
  `check_missing_sections`.
- `RiskScorer` (`risk.dfy`): `calculate_risk_level`.
- `Extraction` (`extraction.dfy`): the format guard and the join rules of
  `extract_text_from_file`, including how `pathlib` splits
  the upload's file name at `/` inside `Path(...)` and takes its suffix.
  - The library outputs are inputs: the decoded text, the Word paragraphs
    and the PDF pages, each either a value or an error message.
- `ReportHtml` (`html.dfy`): the three `_generate_*_html` helpers. The
  two list helpers have their `html +=` loops, and the AI helper is one
  conditional.
- `Analysis` (`analysis.dfy`): `analyze_contract`.
  - It covers the allow-list, the extraction, the 100-character guard, the
    keyword assembly with its fallback, and the AI outcome.
  - It builds the response object, including the in-place `str(value)`
    rewrite of every phrase dict. That rewrite is modelled on an `array` of
    maps.
- `Wrappers` (`wrappers.dfy`): `Option` and `Result`.

Each loop of the source is a method whose `ensures` ties its result to a
specification function. The properties are proved about those functions:
genuineness, ordering, coverage and bounds of the scan, the subsequence
property of the section check, the thresholds and monotonicity of the
score, the guards of the request, and the shape of the HTML fragments.

Two facts about the code shape the model:

- `DEFAULT_DANGEROUS_KEYWORDS` has 15 entries (`backend/server.py:44-51`).
- The phrase dicts are rewritten in place at `backend/server.py:471-473`,
  after the HTML report is written (456-457), so the result's own dicts
  change too.

## Model

| member | source | states |
|---|---|---|
| Text.Lower | backend/server.py:113-117 | lower-casing keeps the length, so positions in the lower-cased text index the original text |
| Text.LowerCharChanges | backend/server.py:113 | a character changes exactly when it is upper-case, and the result is never upper-case |
| Text.LowerAt | backend/server.py:113 | character `i` of the lower-cased string is the lower-cased character `i` |
| Text.LowerIdempotent | backend/server.py:113-117 | lower-casing twice is lower-casing once |
| Text.LowerSlice | backend/server.py:113-122 | lower-casing commutes with slicing |
| Text.LowerConcat | backend/server.py:113 | lower-casing commutes with concatenation |
| Text.Strip | backend/server.py:122 | the stripped string is never longer than the original |
| Text.StripStartSkipsSpace | backend/server.py:122 | everything skipped at the front is whitespace, and the first kept character is not |
| Text.StripEndSkipsSpace | backend/server.py:122 | everything dropped at the back is whitespace, and the last kept character is not |
| Text.StripSlice | backend/server.py:122 | the stripped string is a contiguous slice of the original |
| Text.StripIdempotent | backend/server.py:122 | stripping twice is stripping once |
| Text.ContainsSlice | backend/server.py:137 | a string contains every slice of itself |
| Text.ContainsInConcat | backend/server.py:137 | a substring of either part is a substring of the concatenation |
| Text.Decimal | backend/server.py:473 | `str(n)` is a non-empty string of digits with no leading zero |
| Text.DecimalRoundTrip | backend/server.py:473 | reading the numeral `str(n)` back gives `n` |
| Text.ConcatLength | backend/server.py:100-102 | the concatenation is as long as all pieces together |
| Text.ConcatAppend | backend/server.py:100-102 | concatenating two lists of pieces is concatenating their concatenations |
| Text.ConcatContainsPiece | backend/server.py:320-325 | whatever a piece contains, the concatenation contains |
| Text.ConcatFirst | backend/server.py:320-325 | the concatenation starts with the first piece |
| PhraseScanner.Step | backend/server.py:118-119 | `finditer` moves on by the match length, or by one after an empty match |
| PhraseScanner.Occurrences | backend/server.py:118-119 | every reported position lies inside the text, at or after the start |
| PhraseScanner.OccurrencesSound | backend/server.py:118-119 | every reported position is a genuine match |
| PhraseScanner.OccurrencesSpaced | backend/server.py:118-119 | the positions increase by at least `max(|k|, 1)`, so the matches do not overlap |
| PhraseScanner.OccurrencesCover | backend/server.py:118-119 | every match of the keyword starts inside a reported one |
| PhraseScanner.OccurrencesGreedy | backend/server.py:118-119 | the reported positions are genuine, spaced and covering |
| PhraseScanner.GreedyScanUnique | backend/server.py:118-119 | any list with those three properties is exactly the list `finditer` yields |
| PhraseScanner.EmptyKeywordEverywhere | backend/server.py:118-119 | an empty keyword matches at every index from 0 to `|text|` |
| PhraseScanner.ContainsIffOccurs | backend/server.py:118-137 | `k in t` holds exactly when `finditer` yields at least one match |
| PhraseScanner.ContextIsSlice | backend/server.py:120-122 | the context is a slice of the original text inside the ±50 window, at most `|k| + 100` long |
| PhraseScanner.ScanAppend | backend/server.py:116-127 | scanning `A + B` gives the records of `A` followed by those of `B` |
| PhraseScanner.RecordsAt | backend/server.py:119-126 | record `j` names the keyword, context and position of match `j` |
| PhraseScanner.RecordsMember | backend/server.py:119-126 | every record of one keyword carries that keyword, one of its positions, and the context there |
| PhraseScanner.RecordsLength | backend/server.py:119-126 | one record per match |
| PhraseScanner.ScanSound | backend/server.py:116-126 | every record's phrase is a configured keyword as written, its lower-cased form occurs in the lower-cased text at the position, and its context is the window there |
| PhraseScanner.ScanOneSound | backend/server.py:117-126 | the same for the records of one keyword |
| PhraseScanner.ScanOnePositionsAre | backend/server.py:118-126 | the records of one keyword carry the `finditer` positions, in order |
| PhraseScanner.ScanOneSpaced | backend/server.py:117-119 | the positions of one keyword increase by at least `max(|k|, 1)` |
| PhraseScanner.ScanOneCovers | backend/server.py:117-119 | every match of the keyword starts inside a reported one, so no greedy leftmost match is missed |
| PhraseScanner.ScanContexts | backend/server.py:120-122 | every context is a slice of the text of length at most `|phrase| + 100` |
| PhraseScanner.ScanEmpty | backend/server.py:114-129 | no keywords give no records; the empty text gives records exactly when some keyword is empty |
| PhraseScanner.PhraseCountBound | backend/server.py:116-127 | counting helper: the records naming one phrase are no more than all records |
| PhraseScanner.KeywordCountPositive | backend/server.py:116 | counting helper: a keyword in the list is counted at least once |
| PhraseScanner.PhraseCountAppend | backend/server.py:116-127 | per-phrase counts add up over concatenation |
| PhraseScanner.RecordsPhrases | backend/server.py:119-126 | the records of keyword `k` all name `k` |
| PhraseScanner.DuplicateKeywordsCounted | backend/server.py:116-127 | duplicates are not merged: a keyword configured `c` times gives `c` times its matches |
| PhraseScanner.RecordsPrefixStep | backend/server.py:119-126 | one more match appends one more record |
| PhraseScanner.RecordsSnoc | backend/server.py:119-126 | the records of `ps + [p]` end with the record for `p` |
| PhraseScanner.AppendMatches | backend/server.py:117-126 | the inner loop appends exactly the records of one keyword |
| PhraseScanner.AnalyzeDangerousPhrases | backend/server.py:111-129 | the nested loops return exactly `Scan(text, keywords)` |
| SectionChecker.Missing | backend/server.py:131-140 | the report is no longer than the label list |
| SectionChecker.MissingMember | backend/server.py:134-138 | a label is reported exactly when it is checked and its lower-cased form is absent from the lower-cased text |
| SectionChecker.MissingIndices | backend/server.py:134-138 | the positions of the reported labels lie inside the label list |
| SectionChecker.MissingIsSubsequence | backend/server.py:134-138 | the report is an order-preserving subsequence of the labels checked |
| SectionChecker.MissingNoDuplicates | backend/server.py:134-138 | distinct labels give a report without duplicates |
| SectionChecker.RequiredSectionsDistinct | backend/server.py:54-61 | the six required labels are distinct |
| SectionChecker.MissingCaseInsensitive | backend/server.py:133 | the report depends on the text only through its lower-cased form |
| SectionChecker.MissingAppend | backend/server.py:135-138 | checking `A + B` reports the absent labels of `A`, then those of `B` |
| SectionChecker.MissingIffNotScanned | backend/server.py:134-138 | a required label is missing exactly when the phrase scanner, given that label alone, finds nothing |
| SectionChecker.MissingStep | backend/server.py:136-138 | one more label checked appends it when it is absent |
| SectionChecker.CheckSections | backend/server.py:133-140 | the loop returns exactly `Missing(text, sections)` |
| SectionChecker.CheckMissingSections | backend/server.py:131-140 | `check_missing_sections` returns the absent required labels |
| RiskScorer.CalculateRiskLevel | backend/server.py:142-151 | HIGH iff `d + 2m >= 10`, MEDIUM iff `5 <= d + 2m < 10`, LOW iff `d + 2m < 5` |
| RiskScorer.Name | backend/server.py:146-151 | the level's name is never empty |
| RiskScorer.NameInjective | backend/server.py:146-151 | distinct levels have distinct names |
| RiskScorer.Monotone | backend/server.py:142-151 | more issues of either kind never lower the level |
| RiskScorer.SectionWeighsTwoPhrases | backend/server.py:144 | one missing section weighs exactly as much as two phrases |
| RiskScorer.Boundaries | backend/server.py:142-151 | worked values on both sides of both thresholds |
| Extraction.SplitOn | backend/server.py:382 | splitting the file name at `/`, as `Path(...)` does, never gives an empty list of parts |
| Extraction.Components | backend/server.py:382 | path components are never empty or "." |
| Extraction.RFind | backend/server.py:382 | `rfind` returns the last index of the character, or -1 when it is absent |
| Extraction.Suffix | backend/server.py:382 | the suffix is empty, or a proper ending of the name of length at least 2 that starts with its only dot |
| Extraction.UnsupportedFormatDetail | backend/server.py:383-388 | the detail is "Unsupported file format. Allowed: .txt, .docx, .pdf" |
| Extraction.SuffixOfStem | backend/server.py:382 | a name ending in a dot-led extension has that extension as suffix |
| Extraction.RFindLast | backend/server.py:382 | `rfind` finds the last occurrence |
| Extraction.SplitOnAround | backend/server.py:382 | splitting around one separator splits each side |
| Extraction.SplitOnNone | backend/server.py:382 | a string without the separator splits into itself |
| Extraction.ComponentsAppend | backend/server.py:382 | components distribute over concatenation |
| Extraction.SavedFileName | backend/server.py:392 | the saved path's name is `file_id + file_ext` |
| Extraction.SavedPathExtension | backend/server.py:391-392 | the saved file's extension is the upload's extension |
| Extraction.LowerFixedExtensions | backend/server.py:381 | the allowed extensions are already lower-case |
| Extraction.AllowedExtensionsShape | backend/server.py:381 | each allowed extension is a dot followed by dot-free characters |
| Extraction.UniversalNewlines | backend/server.py:90-91 | text-mode reading never lengthens the text |
| Extraction.UniversalNewlinesNoCR | backend/server.py:90-91 | no carriage return survives a text-mode read |
| Extraction.UniversalNewlinesIdentity | backend/server.py:90-91 | a text without carriage returns is read unchanged |
| Extraction.JoinSplitLines | backend/server.py:95 | joining the lines of a text with "\n" gives the text back |
| Extraction.JoinConsHead | backend/server.py:95 | a character before the first paragraph comes first in the join |
| Extraction.SplitJoinedParagraphs | backend/server.py:95 | paragraphs without "\n" come back from splitting their join |
| Extraction.PhraseAcrossPages | backend/server.py:100-102 | a phrase split across two adjacent pages is found in the extracted text |
| Extraction.ExtractPdfText | backend/server.py:99-102 | the page loop returns the concatenation of the pages |
| Extraction.ExtractionFailed | backend/server.py:107-109 | every extraction failure is a 400 |
| Extraction.ExtractText | backend/server.py:84-109 | failures are 400s, and an unknown extension fails with "Unsupported file format: " and the extension |
| Extraction.ExtractTextFromFile | backend/server.py:84-109 | the method computes `ExtractText` |
| Extraction.ExtractionUsesOwnReading | backend/server.py:88-102 | only the reading for the file's own format matters |
| ReportHtml.PhraseBlocks | backend/server.py:320-325 | one block per phrase |
| ReportHtml.SectionItems | backend/server.py:332-334 | one item per missing section |
| ReportHtml.AiAnalysisHtml | backend/server.py:337-344 | the fragment is empty exactly when the analysis is absent or empty, and otherwise contains the analysis verbatim |
| ReportHtml.EmbeddedBetween | backend/server.py:322-344 | text put around a string still contains it |
| ReportHtml.DangerousPhrasesHtml | backend/server.py:316-326 | the loop returns the "none found" paragraph or the concatenated blocks |
| ReportHtml.MissingSectionsHtml | backend/server.py:328-335 | the loop returns the "all present" paragraph or the concatenated items |
| ReportHtml.PhraseBlocksAt | backend/server.py:321-325 | block `i` is the block of phrase `i`, so input order is kept |
| ReportHtml.PhraseBlockStart | backend/server.py:322 | a block starts with `<div` |
| ReportHtml.NothingFoundStart | backend/server.py:316-330 | both "nothing found" paragraphs start with `<p` |
| ReportHtml.DangerousPhrasesNoneIff | backend/server.py:316-326 | the "none found" paragraph appears exactly when there is no phrase |
| ReportHtml.DangerousPhrasesEmbedded | backend/server.py:321-325 | every phrase and every context appear verbatim in the fragment |
| ReportHtml.PhraseBlockEmbeds | backend/server.py:322-324 | a block contains its phrase and its context |
| ReportHtml.SectionItemsAt | backend/server.py:333-334 | item `i` is the item of section `i` |
| ReportHtml.SectionItemStart | backend/server.py:334 | an item starts with `<div` |
| ReportHtml.MissingSectionsNoneIff | backend/server.py:328-335 | the "all present" paragraph appears exactly when no section is missing |
| ReportHtml.MissingSectionsEmbedded | backend/server.py:333-334 | every missing section appears verbatim in the fragment |
| Analysis.FetchedKeywords | backend/server.py:406 | at most the first 1000 stored keywords are read |
| Analysis.ScanWithStoredKeywords | backend/server.py:405-413 | the defaults are scanned first and in full; stored keywords add records after theirs, and a failed fetch adds none |
| Analysis.AiAnalysisText | backend/server.py:418-422 | the analysis is the model's answer, or "AI анализ временно недоступен: " followed by the error |
| Analysis.AiFieldAbsentIff | backend/server.py:466 | `ai_analysis` is absent exactly when the model answered with nothing; a failure always shows the fallback message |
| Analysis.StringifiedPhrase | backend/server.py:471-473 | after the rewrite a record keeps its three keys, phrase and context are unchanged, and the position is its numeral, which reads back as the position |
| Analysis.StringifyValues | backend/server.py:472-473 | the inner loop keeps the keys and replaces every value by its `str` |
| Analysis.StringifyPhrases | backend/server.py:471-473 | the outer loop rewrites every dict of the list in place |
| Analysis.PhraseDictsFromElements | backend/server.py:471-473 | a list with the rewritten dict of each phrase at its index is the response's list |
| Analysis.PhraseRecords | backend/server.py:464-473 | the response's phrase list is the scan's records, rewritten |
| Analysis.Admit | backend/server.py:381-403 | a rejection is a 400, and an accepted text has an allowed extension and at least 100 characters once stripped |
| Analysis.AdmitUpload | backend/server.py:381-403 | the guard steps compute `Admit` |
| Analysis.BuildResponse | backend/server.py:413-473 | scan, section check, score, AI outcome and rewrite compute `Response` |
| Analysis.AnalyzeContract | backend/server.py:378-475 | the request computes `Analyze` |
| Analysis.UnsupportedRejected | backend/server.py:381-388 | an upload outside the allow-list is a 400 with the allow-list message, whatever the file, the store and the model hold |
| Analysis.SavedFileReadByUploadExtension | backend/server.py:391-399 | the saved file is read by the upload's own extension |
| Analysis.AdmitReadsUpload | backend/server.py:398-403 | with a plain identifier, the guards extract the upload and then apply the length check |
| Analysis.TooShortRejected | backend/server.py:401-402 | a text under 100 characters once stripped is a 400 "Document is too short or empty", whatever the store and the model hold |
| Analysis.RejectionsAreClientErrors | backend/server.py:381-403 | every rejection is a 400, and the store and the model never decide acceptance |
| Analysis.AcceptedResponse | backend/server.py:398-475 | an upload that passes the guards gets the response for its text and this request's keywords |
| Analysis.ResponseContents | backend/server.py:460-468 | the response carries the identifiers, one record per match, the missing sections, and the level from the two counts |
| Analysis.ResponsePhraseRecord | backend/server.py:464-473 | record `i` of the response is match `i` of the scan, with string values and a readable position |
| Analysis.RiskIndependentOfAi | backend/server.py:413-422 | the model's outcome changes only the `ai_analysis` field |
| Analysis.RiskLevelNamed | backend/server.py:146-151 | the level is one of "LOW", "MEDIUM", "HIGH" |
| Analysis.EmptyKeywordFloods | backend/server.py:116-127 | for every text, an empty keyword yields more records than the text has characters |
| Analysis.EmptyKeywordMeansHigh | backend/server.py:142-151 | with an empty keyword, a text of at least 100 characters once stripped is HIGH whatever the missing sections |
| Analysis.EmptyStoredKeywordMeansHigh | backend/server.py:405-415 | when the keyword fetch succeeds and an empty keyword is among the first 1000 read, the scan of any text of at least 100 characters once stripped, with the defaults and those keywords, is HIGH whatever the missing sections; the lemma speaks of the scan and the score, not of `Analyze` |

## Left out

- FastAPI routing, CORS, the keyword CRUD, history and persistence endpoints, and every MongoDB write are I/O against an external store. The stored keywords are an input, `Option<seq<string>>`; `None` stands for any exception while fetching or reading them, which includes a document without a `keyword` field.
- The real extraction libraries (UTF-8 decoding, python-docx, PyPDF2) are foreign code. Their outputs are inputs to the model, each a value or the message of the error raised.
- The language-model call and its prompt, including the truncation of the text to 8000 characters, are a network service. Its outcome is an input, an answer or an error message.
- Saving the upload, deleting it afterwards, and writing the JSON and HTML report files are file I/O, and the model leaves them out. Their failures differ:
  - An exception while saving the upload (`backend/server.py:395-396`) or writing the HTML report (456-457) ends in a 500 `"Analysis failed: ..."` (479-481).
  - An exception while writing the JSON report is logged and ignored (452-454).
  - An exception while deleting the upload in the `finally` block (482-485) escapes without the `"Analysis failed"` detail.
- The JSON report is written from `response_data` before that name is assigned (`backend/server.py:451`, assigned at 460). `open(json_path, 'w')` at 450 has already created the file, and the error is logged and ignored. So the JSON report file is always left empty, and `download_json_report` (491-493) serves that empty file. The response itself is unaffected.
- The static template of `generate_html_report`, the UUIDs and the timestamps are presentation text and non-deterministic values. Identifiers and the timestamp are parameters; only the three fragment helpers are modelled.
- Text.Lower: lowers only U+0041-U+005A, U+00C0-U+00DE except U+00D7, and U+0400-U+042F. Every other character maps to itself, although Python lowers many of them. This includes upper-case letters elsewhere in the Cyrillic block (such as U+0490 and U+04E8), Latin Extended (such as U+0100) and Greek. The cases where `str.lower()` changes the length of a string are not modelled either.
- The aliasing between the dicts of the stored result and those of the response is not modelled. The rewrite is shown on the response's list only.
- Extraction.Suffix: follows `PurePath.suffix` as of Python 3.12 and earlier, where a name ending in a dot has no suffix.
- A missing upload file name (`None`) is not modelled; the file name is a string.
- Analysis.FetchedKeywords: the store's natural order is taken as the order of the input list.
- Logging (`backend/server.py:108`, 179, 409, 421, 442, 453, 480) is output only and is not modelled.
- The key order `phrase`, `context`, `position` of the phrase dicts (`backend/server.py:119-126`) is not modelled: a `map<string, JsonValue>` has no order, while the serialized JSON shows it.

# JobSeeker agent: a Dafny model of its pure core

The job-seeker agent searches job boards, asks a language model for
suggestions and tailors a résumé for each job the user picks. Most of it is
glue around HTTP services, language models and HTML/PDF rendering. This
project models the deterministic parts in Dafny and proves properties
about them:

- **Job boards** (`job_boards.dfy`, module `JobBoards`)
  - the standardized job record;
  - the request rules of the Adzuna, JSearch and USAJobs adapters:
    placeholder credentials, page-size clamping, the location parameter and
    JSearch's `limit` slice;
  - the `"city, state".strip(', ')` location text;
  - the aggregator: it runs the adapters in order, skips one that raises,
    and deduplicates by the lower-cased `title_company` key;
  - "replace the first adapter of a kind" reconfiguration.
- **Tailoring reply parser** (`resume_formatter.dfy`, module `ResumeFormatter`)
  - `_extract_sections`, the line-oriented parser that maps upper-case
    `HEADER:` lines to the text below them;
  - `_parse_tailored_resume`, which overlays the summary and the skills and
    appends new keywords;
  - both are checked against a block-segmentation reading of the reply.
- **Résumé validator** (`validate_resume.dfy`, module `ValidateResume`):
  `validate_resume_structure` over JSON-like values with Python
  truthiness. It is proved to report nothing exactly when a direct
  definition of a valid résumé holds.
- **Suggestion client** (`gpt_interface.dfy`, module `GptInterface`)
  - the experience and education summaries;
  - the `[` … `]` span that `_parse_job_response` hands to the JSON decoder.
- **Command-line driver** (`job_seeker_cli.dfy`, module `JobSeekerCli`)
  - one pass of `select_jobs`: `none`/`all`, comma or whitespace tokens,
    `int()` parsing and 1-based picking;
  - the output file names, the PDF path, and the list of résumés reported
    as written.

Support modules:

- `Wrappers`: `Option`.
- `JsonValue`: JSON-like values and Python truthiness.
- `Text`: the Python `str` operations the code uses, all written out:
  - ASCII `lower`/`upper`;
  - `strip`, `split` and `join`;
  - `find` and `rfind`;
  - left-to-right `replace`;
  - `str(n)` and the `int()` grammar.

## Model

| member | source | states |
|---|---|---|
| JobBoards.DedupOutputValid | app/job_board_apis.py:386-390 | every record the deduplication keeps came from the input and has a non-empty title and a non-empty company |
| JobBoards.DedupSummary | app/job_board_apis.py:377-392 | the kept records have pairwise distinct keys; their keys are exactly the keys of the valid input records; they are a subsequence of the input |
| JobBoards.DedupFrom | app/job_board_apis.py:381-392 | the loop with a pre-filled `seen` set emits only valid records whose keys are not yet seen, and never more records than it reads |
| JobBoards.DedupFromKeys | app/job_board_apis.py:386-390 | the keys emitted are exactly the keys of the valid input records minus those already seen |
| JobBoards.DedupFromAppend | app/job_board_apis.py:384-390 | deduplicating `a + b` is deduplicating `a`, then `b` with `a`'s valid keys already seen |
| JobBoards.DedupSnoc | app/job_board_apis.py:384-390 | one more input record is appended exactly when it is valid and no earlier valid record has its key (reference characterisation) |
| JobBoards.DedupKeepsFirst | app/job_board_apis.py:388-390 | the first valid record with a given key is in the output |
| JobBoards.DedupSkipsInvalid | app/job_board_apis.py:388 | a record with an empty title or company never adds its key to `seen`: removing it changes nothing |
| JobBoards.DedupIdempotent | app/job_board_apis.py:377-392 | deduplicating twice is deduplicating once |
| JobBoards.CaseInsensitiveMerge | app/job_board_apis.py:386 | records differing only in letter case share a key and only the first is kept |
| JobBoards.KeyCollisionMerges | app/job_board_apis.py:386 | ("a_b", "c") and ("a", "b_c") have the same joined key, so the second record is dropped |
| JobBoards.DeduplicateJobs | app/job_board_apis.py:381-392 | the `seen`-set loop computes the recursive deduplication, and its output is valid and key-distinct |
| JobBoards.RequestSkippedIff | app/job_board_apis.py:63-65 | no request is built exactly when the credentials are placeholders (JSearch too, lines 141-143); USAJobs always builds one |
| JobBoards.PagedRequestShape | app/job_board_apis.py:67-76 | Adzuna's `results_per_page` is `min(limit, 50)`; USAJobs' `ResultsPerPage` is `min(limit, 500)` (lines 234-241); the query is sent as `what` / `Keyword`; the location parameter (`where` / `LocationName`) is present exactly when the location is non-empty, and then holds it |
| JobBoards.JSearchRequestShape | app/job_board_apis.py:145-150 | JSearch sends no location or page-size parameter: with no location the query goes out stripped, and a query and location with no outer blanks go out joined by one space |
| JobBoards.DefaultCredentials | app/job_board_apis.py:53-56 | the default Adzuna and JSearch adapters carry placeholders and skip; USAJobs needs no key (lines 128-130, 221-223) |
| JobBoards.CollectMembers | app/job_board_apis.py:85-88 | a record is kept exactly when some raw item standardizes to it |
| JobBoards.CollectAppend | app/job_board_apis.py:85-88 | the filter keeps the order of the raw items: collecting `a + b` is collecting `a`, then `b` |
| JobBoards.CollectOne | app/job_board_apis.py:85-88 | one raw item gives its standardized record, or nothing when `standardize_job` gives `None` |
| JobBoards.PrefixSlice | app/job_board_apis.py:159 | Python's `xs[:n]`: the first `min(n, len)` items; a negative `n` drops that many from the end |
| JobBoards.AdapterDegradesToEmpty | app/job_board_apis.py:93-98 | placeholder credentials and a failed request both give `[]`, never an error |
| JobBoards.JSearchRespectsLimit | app/job_board_apis.py:159-162 | JSearch returns at most `limit` records for a non-negative `limit` |
| JobBoards.JSearchNegativeLimit | app/job_board_apis.py:159 | `limit = -1` keeps all but the last raw item |
| JobBoards.FormatCityState | app/job_board_apis.py:185 | the formatted location never starts or ends with ',' or ' ' |
| JobBoards.FormatCityStateCases | app/job_board_apis.py:185 | clean city and state give `"city, state"`; an empty part takes its separator with it |
| JobBoards.UsaJobsLocation | app/job_board_apis.py:277-283 | "" with no listed place; otherwise the first place formatted as "city, state", never starting or ending with ',' or ' ' |
| JobBoards.SearchAllBoardsLoop | app/job_board_apis.py:356-372 | the aggregator loop returns the deduplication of the concatenated results of the adapters that did not raise |
| JobBoards.FailureIsolation | app/job_board_apis.py:358-369 | an adapter that raises counts as one that found nothing; the others' results are still used |
| JobBoards.LaterAdapterAddsNewKeys | app/job_board_apis.py:358-372 | a later adapter's results add only records whose keys no earlier adapter produced |
| JobBoards.SearchAllProvenance | app/job_board_apis.py:356-372 | every aggregated record was returned by an adapter that did not raise |
| JobBoards.SearchAllNothingFound | app/job_board_apis.py:356-372 | when no adapter returns a record the aggregate is empty |
| JobBoards.DefaultAggregation | app/job_board_apis.py:338-342 | with the default set-up only USAJobs is queried, so the aggregate is the deduplicated USAJobs result |
| JobBoards.FirstOfKind | app/job_board_apis.py:398-399 | the index of the first adapter of a class, or -1 exactly when none has it |
| JobBoards.Reconfigure | app/job_board_apis.py:394-419 | only the first adapter of the replacement's class is replaced; the length and every other adapter are kept; no match changes nothing |
| JobBoards.ConfigureAdzunaDefault | app/job_board_apis.py:394-401 | on the default set-up, configuring Adzuna touches only slot 0, which stops skipping exactly when both credentials are real |
| ResumeFormatter.HeaderIff | app/resume_formatter.py:186 | a stripped line is a header exactly when it ends with ':' and holds no lower-case letter |
| ResumeFormatter.StrippedLinesRoundTrip | app/resume_formatter.py:182-183 | lines that are already stripped and hold no '\n', joined by '\n', are read back as those lines |
| ResumeFormatter.NonEmptyLinesAppend | app/resume_formatter.py:194-195 | content lines are filtered one by one, in order: the kept lines of `a + b` are those of `a`, then those of `b` |
| ResumeFormatter.NonEmptyLinesOne | app/resume_formatter.py:194-195 | a single line is kept exactly when it is non-empty |
| ResumeFormatter.Segment | app/resume_formatter.py:182-195 | the reply's lines cut at the headers: the headers open the blocks and nothing is lost |
| ResumeFormatter.SegmentUnique | app/resume_formatter.py:182-195 | the cut is unique: segmenting the lines of a well-formed segmentation gives it back |
| ResumeFormatter.ScanIsSectionsOf | app/resume_formatter.py:182-199 | the streaming loop, from any state, computes the block reading of the lines |
| ResumeFormatter.ExtractIsBlockReading | app/resume_formatter.py:174-201 | `_extract_sections` writes one section per block, in order: the header's name and its joined non-empty lines |
| ResumeFormatter.SectionsOfKeys | app/resume_formatter.py:188-189 | a name has a section exactly when it had one or some block with a truthy name and some content writes it |
| ResumeFormatter.SectionsOfLastWins | app/resume_formatter.py:189 | when a name repeats, the last block with content wins |
| ResumeFormatter.SectionsOfUntouched | app/resume_formatter.py:188-189 | blocks that do not write a name leave its section alone |
| ResumeFormatter.SectionsOfShape | app/resume_formatter.py:188-199 | every section name is non-empty, is a header without its colon, and has non-empty text |
| ResumeFormatter.ExtractSectionsSpec | app/resume_formatter.py:174-201 | which names appear and with what text: the last contributing block's lines joined by '\n'; lines before the first header are ignored |
| ResumeFormatter.ExtractSectionsExample | app/resume_formatter.py:182-199 | preamble lines, a header with no content, and lines under the empty-name header ':' yield no section; a repeated header keeps its last content |
| ResumeFormatter.StrippedPiecesAppend | app/resume_formatter.py:153 | the pieces of a comma list are handled one by one, in order |
| ResumeFormatter.StrippedPiecesOne | app/resume_formatter.py:153 | a piece contributes its stripped text exactly when that is non-empty |
| ResumeFormatter.CommaListRoundTrip | app/resume_formatter.py:152-153 | reading back a ", "-joined list of clean items gives the items |
| ResumeFormatter.NewKeywords | app/resume_formatter.py:163-166 | a keyword is appended exactly when it is listed and not in the skill set built before the loop (list items, a string's characters or a dict's keys) |
| ResumeFormatter.RepeatedKeywordAppendedTwice | app/resume_formatter.py:163-166 | the skill set is built once, so a new keyword listed twice is appended twice |
| ResumeFormatter.TailorKeepsOtherFields | app/resume_formatter.py:140-168 | every field other than `summary` and `skills` keeps its presence and value |
| ResumeFormatter.TailorSummary | app/resume_formatter.py:146-148 | `summary` becomes the stripped 'TAILORED SUMMARY' text only when that section exists, and the fallback returns the original |
| ResumeFormatter.TailorSkills | app/resume_formatter.py:150-166 | skills are replaced by the non-empty 'PRIORITIZED SKILLS' list, then extended by the keywords not already in the set |
| ResumeFormatter.TailorExtendsSkills | app/resume_formatter.py:157-166 | with no replacement list, the keywords not in the original skill set are appended, in order and with repeats, to the original skills list |
| ResumeFormatter.MissingSkillsFallsBack | app/resume_formatter.py:158-172 | with no `skills` key, no replacement list and some keywords, the original résumé comes back |
| ResumeFormatter.TailorEachIndependent | main.py:209-213 | with value semantics each job's résumé depends only on its own reply |
| ResumeFormatter.KeywordLeaksIntoNextJob | app/resume_formatter.py:140-166 | as written, a keyword added for one job appears in the next job's résumé; with value semantics it does not |
| ValidateResume.MissingFieldReportedIff | validate_resume.py:26-30 | "Missing required field: f" is reported exactly when f is required and absent |
| ValidateResume.EmptyFieldReportedIff | validate_resume.py:26-32 | "Empty required field: f" is reported exactly when f is required, present and falsy |
| ValidateResume.MissingFields | validate_resume.py:37-39 | every message names a field that is absent or falsy |
| ValidateResume.MissingFieldsComplete | validate_resume.py:37-39 | a field is reported exactly when it is listed and is absent or falsy |
| ValidateResume.ValidateEmptyIff | validate_resume.py:13-82 | no message exactly when every required field is truthy, if `contact` is a dict, it has a truthy email and phone, `skills` is a list, and `experience` and `education` are non-empty lists of dicts with their fields truthy |
| ValidateResume.ItemErrorsEmpty | validate_resume.py:55-63 | the items give no message exactly when each is a dict with every required field truthy |
| ValidateResume.ListErrorsEmpty | validate_resume.py:49-80 | a present list field gives no message exactly when it is a non-empty list of good items |
| ValidateResume.ValidateEmptyResume | validate_resume.py:26-32 | an empty dict gets exactly the seven "Missing required field" messages, in order |
| ValidateResume.EmptyRequiredReported | validate_resume.py:31-32 | a present but falsy required field is reported as empty |
| ValidateResume.EmptySkillsReportedTwice | validate_resume.py:42-46 | an empty skills list is reported both as an empty required field and as an empty list |
| ValidateResume.NonObjectItemReported | validate_resume.py:55-58 | any list item that is not a dict is reported as "<kind> item <i+1> should be an object" |
| ValidateResume.NonObjectItem | validate_resume.py:56-58 | for a one-item list holding a non-dict, that message is the only one: the item's fields are not inspected |
| GptInterface.SummarizeExperienceFallbackIff | app/gpt_interface.py:112-113 | the summary is "No experience listed" exactly when the list is empty |
| GptInterface.SummarizeEducationFallbackIff | app/gpt_interface.py:128-129 | the summary is "No education listed" exactly when the list is empty |
| GptInterface.SummarizeExperienceSplit | app/gpt_interface.py:115-122 | with no ';' in the fields, splitting the summary at ';' gives back the entries |
| GptInterface.SummarizeEducationSplit | app/gpt_interface.py:131-138 | with no ';' in the fields, splitting the summary at ';' gives back the entries |
| GptInterface.NoBracketNoJobs | app/gpt_interface.py:146-155 | content without '[' gives `[]` |
| GptInterface.CandidateOfPair | app/gpt_interface.py:146-150 | with a ']' after a '[', the decoded text runs from the first '[' through the last ']' |
| GptInterface.CandidateShape | app/gpt_interface.py:146-150 | the candidate is non-empty exactly when some ']' follows some '['; it then starts with '[' and ends with ']' |
| GptInterface.VacuousGuardHarmless | app/gpt_interface.py:149 | the always-true `end_idx != -1` test behaves like the intended one as long as decoding "" fails |
| GptInterface.EmbeddedArray | app/gpt_interface.py:146-152 | an array wrapped in prose with no brackets is exactly what gets decoded |
| JobSeekerCli.TokensCommaRoundTrip | main.py:166-167 | two or more items without commas or outer blanks, joined by ',', are split back into those items |
| JobSeekerCli.ParseAll | main.py:167-169 | the numbers exist exactly when every token is an `int()` literal, and then there is one per token |
| JobSeekerCli.PickAppend | main.py:172-177 | the numbers are handled one by one, in order: the selection for `a + b` is that for `a`, then that for `b` |
| JobSeekerCli.PickOne | main.py:172-177 | one number picks the job it names when it is in range, and is skipped otherwise |
| JobSeekerCli.PickProvenance | main.py:173-175 | every picked job sits at some in-range 1-based number given |
| JobSeekerCli.PickInRange | main.py:172-177 | with every number in range, the selection is the jobs at those numbers, in order, repeats kept |
| JobSeekerCli.PickOutOfRange | main.py:176-177 | out-of-range numbers are skipped: none in range, nothing picked |
| JobSeekerCli.TypedNumbersSelect | main.py:157-180 | typing valid job numbers separated by spaces selects exactly those jobs |
| JobSeekerCli.TypedAnswerTokens | main.py:169 | `int()` of the words of a typed answer gives back the numbers |
| JobSeekerCli.SelectCaseInsensitive | main.py:157-163 | the answer is read case-insensitively |
| JobSeekerCli.OutOfRangeRetries | main.py:179-182 | numbers that parse but are all out of range make the prompt repeat |
| JobSeekerCli.BlankAnswerRetries | main.py:169-182 | a blank answer yields no number, so the prompt repeats |
| JobSeekerCli.NonIntegerRetries | main.py:167-185 | one token that `int()` rejects makes the prompt repeat |
| JobSeekerCli.EmptyTokenRetries | main.py:166-167 | "1,,2": the empty piece makes `int('')` raise, so the prompt repeats |
| JobSeekerCli.SanitizeAppend | main.py:216-217 | names are rewritten character by character |
| JobSeekerCli.SanitizeChar | main.py:216-217 | a blank becomes '_', a comma is dropped, and any other character is kept |
| JobSeekerCli.SanitizeClean | main.py:216-217 | names without blanks or commas pass through unchanged |
| JobSeekerCli.HtmlPathShape | main.py:216-219 | the path starts with "data/output/", ends with ".html", and has no blank or comma past the directory |
| JobSeekerCli.FileNameCollision | main.py:216-218 | "A B" and "A_B" (likewise "A,B" and "AB") give the same file name |
| JobSeekerCli.PdfPathSwapsExtension | main.py:230 | when neither name holds ".html", the PDF path is the HTML path with ".pdf" in place of ".html" |
| JobSeekerCli.PdfPathRewritesTitle | main.py:230 | a title ending in ".html" gets ".pdf" twice, since every occurrence is replaced |
| JobSeekerCli.CreatedPathsSnoc | main.py:207-225 | paths are reported in selection order: a further job adds its HTML path at the end exactly when its rendering succeeded |
| JobSeekerCli.CreatedPathsComplete | main.py:222-225 | one path per successful rendering, and every successful job's path is reported |
| JobSeekerCli.CreatedPathsAll | main.py:207-225 | when every rendering succeeds, the paths are the jobs' HTML paths in selection order |
| Text.ReplaceAllFirstMatch | main.py:230 | `str.replace` replaces the first occurrence after a stretch without the pattern, then goes on scanning |
| Text.ParseIntDecimal | main.py:169 | `int(str(n)) == n` |

## Left out

- HTTP traffic is a parameter of each adapter: `requests` sessions, headers, `raise_for_status` and `response.json()`. `None` stands for a request or a decoding that raised and was caught.
- Each adapter's `standardize_job` is an abstract function, and the record keeps only its string fields. The float salary helpers are not modelled, because they rest on Python `float()` parsing.
- Deduplication and validation assume string fields. A non-string `title` would make `.lower()` raise outside the aggregator's `try`; this is not modelled.
- `time.sleep` pacing, logging and printing are left out: they have no effect on results.
- The language-model calls and the prompt texts are not modelled. `json.loads` is a parameter of `_parse_job_response`; `VacuousGuardHarmless` assumes it rejects the empty text, as `json.loads("")` does.
- The summarizers take records whose fields are strings or missing. Non-string values, formatted by `str()`, and non-dict list items are not modelled.
- `str.lower`, `str.upper` and `str.strip` are modelled on ASCII letters and whitespace only.
- `int()` accepts ASCII digits with single underscores, surrounding whitespace and one sign. Unicode digits and the 4300-digit limit are left out.
- `select_jobs` is modelled as one pass of its loop. The `input()` call, the retry loop itself and the `KeyboardInterrupt` path are left out.
- The driver's job fields are modelled as strings or missing keys (`JobRef`). A job decoded from the model's reply with `"company": null` or a number would make `.replace` raise `AttributeError` in `create_tailored_resumes`, which nothing catches; that path is not modelled.
- FormatCityState, FormatCityStateCases: the city and state are modelled as strings, with a missing key read as "". A JSON `null` (or a number) is formatted by the f-string as its `str()`, so `"job_city": null, "job_state": "CA"` gives "None, CA"; that case is not modelled.
- UsaJobsLocation: `CityName` and `StateName` are modelled as strings, with a missing key read as ""; a `null` name formatted as "None" is not modelled.
- JSON numbers are modelled as integers. Floats are left out; the model only uses a number's truthiness, and a non-zero float is as truthy as a non-zero integer.
- Rendering, writing files and the PDF converters are left out. Each render's success is a parameter of `create_tailored_resumes`.
- The modules that import a package that does not exist (`app/job_board_apis/adzuna_api.py`, `app/job_board_apis/jooble_api.py`) are not part of this model, nor are `app/job_board_apis/base.py` (an abstract stub) and `app/api_controller.py`.
- USAJobs has no credential check in the code, so with the default set-up it is still queried. The comment at app/job_board_apis.py:336-337 says the default adapters return empty results without API keys, but USAJobs needs none (lines 219 and 231-245). The model follows the code (`DefaultAggregation`).
- `_parse_tailored_resume` returns a shallow copy. The rest of the model uses value semantics; the sharing of the skills list is modelled only under Findings.

## Findings

| source | as written | input that shows it | evidently intended | confidence | as-written member | corrected member |
|---|---|---|---|---|---|---|
| app/resume_formatter.py:140-166 | `original_resume.copy()` is shallow. When the skills were not replaced, the keywords are appended to the list the caller's résumé holds. `create_tailored_resumes` (main.py:213) passes the same `self.resume_data` for every job, so keywords leak into later jobs. | base `{"skills": ["Python"]}`; the first reply has `KEYWORDS TO INCLUDE:` / `Go`, the second reply is empty. The second résumé lists `["Python", "Go"]`. | Each job is tailored from the unchanged base résumé; a copy of the skills list is taken before appending. | not executed | ResumeFormatter.KeywordLeaksIntoNextJob | ResumeFormatter.TailorEachIndependent |

# ATS Ranker v1.0 — a Dafny model of its text and gating core

The ATS Ranker is a small Streamlit app. An operator pastes a job description, uploads one to five
résumés (PDF or Word) and presses "Rank Candidates". The app then:

- checks its inputs;
- extracts and normalises the text of every résumé into a dictionary keyed by file name;
- sends one prompt with the job description and all candidates to a generative model;
- strips code fences from the reply, decodes it as JSON and shows it as a leaderboard.

This project models the deterministic core of that pipeline and proves what it promises.

- `strings.dfy` (`Strings`) models the Python string primitives the core uses:
  - `str.strip`, `lstrip` and `rstrip`, over the exact whitespace set of `str.isspace`, written out;
  - slicing `s[:n]`, `sep.join`, `s.split(c)`;
  - `s.replace(pat, "")`, which removes left to right without overlap.
- `normalize.dfy` (`Normalize`) models `clean_text`. Each run of whitespace becomes one space, then the
  ends are trimmed. It proves the output shape, that the content is kept, idempotence, the exact fixed
  points, and equality with `" ".join(s.split())`.
- `extraction.dfy` (`Extraction`) models `extract_text`:
  - the dispatch on `.docx` and then `.pdf`;
  - the paragraph join and the page-by-page PDF loop;
  - the `"Error reading file: "` conversion of a parser exception.

  The parsers are abstract inputs. An upload carries its paragraph list or its page list, or the
  message of the exception its parser raises.
- `dicts.dfy` (`Dicts`) is Python's insertion-ordered `dict` of strings.
- `json.dfy` (`Json`) holds the values `json.loads` can return and Python's `key in value` on them.
- `ranking.dfy` (`Ranking`) models `rank_resumes_with_gemini`:
  - the candidate-block loop with its 10000-character truncation;
  - the exact prompt text with the 5000-character job-description truncation;
  - the fence cleanup of line 71;
  - the one-record failure value `[{"filename": "Error", "reason": msg}]`.

  The model call and `json.loads` are function parameters that give a text or a failure message.
- `app.dfy` (`App`) models the button handler of `aap.py`:
  - the four ordered input guards;
  - the loop that fills `resumes_content`;
  - the halt when nothing was stored;
  - the leaderboard test of line 76;
  - the column filter of lines 84-87;
  - `Run`, which strings them together.

  `st.stop()` is the `Halted` outcome. An uncaught exception is the `Crashed` view.

The leaderboard test is modelled as the code writes it. The design description says a failure
should produce the generic failure notice. In the code, the failure record has a `"filename"` key,
so it passes the test and is shown as a one-row table (`App.FailureShownAsLeaderboard`). An empty
list raises `IndexError` at `ranked_data[0]` instead of showing the notice.

The design also says the reply is parsed strictly as an array of objects. The code accepts any JSON
value. A non-list value reaches the failure notice through `isinstance`. A list whose first element is
a number, `true`/`false` or `null` raises `TypeError`. The model follows the code in each of these cases.

## Model

| member | source | states |
|---|---|---|
| Strings.Strip | utils.py:9 | `strip()` yields a string with no whitespace at either end that is no longer than its input. It is empty exactly when the input is all whitespace, and it leaves an already-trimmed string unchanged |
| Strings.StripPadded | utils.py:9 | stripping whitespace padding from a trimmed string gives that string back |
| Strings.StripKeepsContent | utils.py:9 | `strip()` removes whitespace only: the non-whitespace characters are kept, in order |
| Strings.Take | utils.py:35 | `s[:n]` has length `min(len(s), n)`, is a prefix of `s`, and is `s` itself when `s` is no longer than `n` |
| Strings.RemoveAll | utils.py:71 | `s.replace(pat, "")` never lengthens its input and leaves an input shorter than the pattern unchanged |
| Strings.RemoveAllSkipsPrefix | utils.py:71 | removal passes unchanged over a prefix that does not contain the pattern's first character |
| Strings.Split | utils.py:15 | `s.split(c)` gives at least one piece, and no piece contains `c` |
| Strings.Join | utils.py:15 | `sep.join(parts)`. Its contract is carried by `Strings.JoinSplit`, `Strings.SplitJoin` and `Strings.JoinSeparatorCount`, which make it the inverse of `Strings.Split` on separator-free pieces |
| Strings.JoinSplit | utils.py:15 | joining the pieces of `s.split(c)` with `c` gives `s` back |
| Strings.SplitJoin | utils.py:15 | splitting the `c`-join of one or more `c`-free pieces on `c` gives the pieces back |
| Strings.JoinSeparatorCount | utils.py:15 | joining `n >= 1` pieces free of the separator character inserts exactly `n - 1` separators |
| Normalize.CollapseRuns | utils.py:8 | `re.sub(r'\s+', ' ', s)` is never longer than its input and is empty only for the empty input. Its first character is whitespace exactly when the input's is |
| Normalize.CollapseRunsShape | utils.py:8 | after collapsing, no two whitespace characters are adjacent and the only whitespace character is `' '` |
| Normalize.CollapseRunsKeepsContent | utils.py:8 | collapsing keeps every non-whitespace character, in order |
| Normalize.CollapseRunsFixes | utils.py:8 | a string with single spaces as its only whitespace is left unchanged by collapsing |
| Normalize.CleanText | utils.py:7-9 | `clean_text` never lengthens its input and leaves no whitespace at either end. Its other properties are the `Normalize.CleanText…` lemmas below |
| Normalize.CleanTextNormalized | utils.py:7-9 | `clean_text` output has no whitespace at either end, no two adjacent whitespace characters, and no whitespace but `' '` |
| Normalize.CleanTextKeepsContent | utils.py:7-9 | deleting all whitespace from the input and from the output of `clean_text` gives equal strings |
| Normalize.CleanTextEmptyIff | utils.py:7-9 | `clean_text` gives `""` exactly when its input is empty or all whitespace |
| Normalize.CleanTextFixedPoints | utils.py:7-9 | `clean_text(s) == s` exactly when `s` is trimmed, has no two adjacent whitespace characters and only `' '` as whitespace |
| Normalize.CleanTextIdempotent | utils.py:7-9 | `clean_text(clean_text(s)) == clean_text(s)` |
| Normalize.CleanTextIsJoinOfWords | utils.py:7-9 | `clean_text(s)` equals the independent definition `" ".join(s.split())` |
| Extraction.PdfText | utils.py:18-23 | the text the PDF loop builds, or the message of the first page that raises. Its contract is carried by `Extraction.PdfTextStaysFailed`, `Extraction.PdfTextConcatenates` and `Extraction.PdfFirstRaiseDecides`, and `Extraction.ReadPages` is proved equal to it |
| Extraction.ReadPages | utils.py:18-21 | the page loop appends each page's text in page order, `None` counting as `""`. It gives the same text, or the same first exception, as the PDF fold |
| Extraction.PdfTextStaysFailed | utils.py:19-23 | once a page has raised, the pages after it do not change the outcome |
| Extraction.PdfTextConcatenates | utils.py:18-21 | when no page raises, the PDF text is the concatenation of the page texts in page order, with `""` for a page without text |
| Extraction.PdfFirstRaiseDecides | utils.py:19-23 | the first page that raises decides the exception, whatever the later pages hold |
| Extraction.ExtractedText | utils.py:11-24 | the value `extract_text` returns. `Extraction.ExtractText` is proved equal to it, and `Extraction.UnknownSuffixYieldsEmpty`, `Extraction.ParseFailureReported` and `Extraction.DocxParagraphsJoined` pin down its branches |
| Extraction.ExtractText | utils.py:11-24 | the extractor returns the paragraphs joined by newlines for `.docx`, the concatenated page texts for `.pdf`, `"Error reading file: "` plus the message when a parser raises, and `""` for any other name |
| Extraction.SuffixesExclusive | utils.py:13-16 | no file name ends with both `.docx` and `.pdf`, so testing `.docx` first never hides a `.pdf` file |
| Extraction.UnknownSuffixYieldsEmpty | utils.py:24 | a name with neither suffix yields `""` |
| Extraction.ParseFailureReported | utils.py:22-23 | a parser exception yields exactly `"Error reading file: "` followed by its message |
| Extraction.DocxParagraphsJoined | utils.py:15 | `n` newline-free paragraphs give a text with exactly `n - 1` newlines, and splitting it on newlines recovers the paragraphs |
| Dicts.Put | aap.py:63 | `d[k] = v` sets `k` to `v`. A new key goes to the end of the iteration order, and an existing key keeps its place. The order stays duplicate-free and lists exactly the keys |
| Json.In | aap.py:76 | `key in value` raises `TypeError` exactly for `None`, booleans and numbers |
| Ranking.CandidateBlock | utils.py:35 | one candidate's block: the delimiters naming the file around its text. `Ranking.CandidateBlockTruncates` states that only the first 10000 characters matter |
| Ranking.CandidateBlockTruncates | utils.py:35 | two texts give the same candidate block exactly when their first 10000 characters agree |
| Ranking.CandidatesSection | utils.py:33-35 | the candidates text: one block per key, in the given order. `Ranking.CandidatesSectionAppend`, `Ranking.CandidatesSectionOrder` and `Ranking.CandidatesSectionTruncates` carry its contract, and `Ranking.BuildCandidatesText` is proved equal to it |
| Ranking.CandidatesSectionAppend | utils.py:34-35 | the candidates section of two key lists in sequence is the concatenation of their sections |
| Ranking.CandidatesSectionOrder | utils.py:34-35 | the section is the earlier keys' blocks, then key `i`'s block, then the later keys' blocks, following the dictionary's iteration order |
| Ranking.CandidatesSectionTruncates | utils.py:34-35 | the section depends on each résumé's text only through its first 10000 characters |
| Ranking.BuildCandidatesText | utils.py:33-35 | the accumulation loop over the dictionary's items builds exactly the candidates section, in insertion order |
| Ranking.Prompt | utils.py:37-66 | the prompt text. `Ranking.PromptTruncatesJobDescription` and `Ranking.PromptTruncatesCandidates` carry its contract, and `Ranking.BuildPrompt` is proved equal to it |
| Ranking.PromptTruncatesJobDescription | utils.py:41 | two job descriptions give the same prompt exactly when their first 5000 characters agree |
| Ranking.PromptTruncatesCandidates | utils.py:35-44 | dictionaries with the same keys in the same order and texts that agree on their first 10000 characters give the same prompt |
| Ranking.BuildPrompt | utils.py:33-66 | the prompt is the fixed instruction text around the truncated job description and the candidates section |
| Ranking.CleanResponse | utils.py:71 | the cleaned reply is never longer than the reply and has no whitespace at either end. `Ranking.CleanResponseHasNoFence` and `Ranking.FencedPayloadRecovered` state the rest |
| Ranking.NoLeadingBacktickKept | utils.py:71 | removing the fences from a string that does not start with a backtick leaves one that does not start with a backtick |
| Ranking.NoLeadingDoubleBacktickKept | utils.py:71 | removing the fences from a string that does not start with two backticks leaves one that does not start with two backticks |
| Ranking.RemoveFenceLeavesNone | utils.py:71 | after every "```" is removed left to right, no "```" remains, not even one formed across a removed fence |
| Ranking.CleanResponseHasNoFence | utils.py:71 | the cleaned reply never contains "```" |
| Ranking.FencedPayloadRecovered | utils.py:71 | a payload with no backtick and no whitespace at its ends cleans to itself, both bare and wrapped as "```json\n" + payload + "\n```" |
| Ranking.Sentinel | utils.py:75 | the failure record `[{"filename": "Error", "reason": msg}]`. `Ranking.FailureYieldsSentinel`, `App.SentinelPassesGate` and `App.SentinelColumns` state what it is and how it is shown |
| Ranking.RankingResult | utils.py:68-75 | the value the ranking call returns for a prompt. `Ranking.RankResumes` is proved equal to it, and `Ranking.FailureYieldsSentinel` and `Ranking.FencedReplyDecodesLikeBare` carry its contract |
| Ranking.RankResumes | utils.py:26-75 | the ranking call returns the decoded reply to the assembled prompt, or the failure record |
| Ranking.FailureYieldsSentinel | utils.py:74-75 | a failed request or a failed decode gives exactly one record, whose keys are `filename` = `"Error"` and `reason` = the failure's message |
| Ranking.FencedReplyDecodesLikeBare | utils.py:68-73 | a reply wrapped in a json fence gives the same result as the bare payload would |
| App.Validate | aap.py:35-46 | processing continues exactly when the key is non-empty, the job description has at least 50 characters and there are 1 to 5 files. Otherwise the first failing check, in the order key, job description, no files, too many files, alone decides the message |
| App.ValidationBoundaries | aap.py:38-46 | a 49-character job description is refused and a 50-character one accepted. 0 and 6 files are refused, 1 and 5 accepted |
| App.Stored | aap.py:62 | the test `text and not text.startswith("Error")`. `App.GatherKeys`, `App.NothingGatheredIff`, `App.ParseFailureNeverStored`, `App.WhitespaceOnlyStoredEmpty` and `App.ResumeStartingWithErrorDropped` state what it lets through |
| App.Gather | aap.py:60-63 | the dictionary the loop builds keeps its order duplicate-free and listing exactly its keys |
| App.Collected | aap.py:57-63 | the dictionary the extraction loop builds from the uploads, which keeps the dictionary invariant. `App.CollectResumes` is proved equal to it, and `App.CollectedKeys`, `App.GatherLastWins` and `App.GatherOrder` carry its contract |
| App.CollectResumes | aap.py:57-65 | the extraction loop fills the dictionary exactly as the fold over the uploads' extracted texts does |
| App.GatherKeys | aap.py:60-63 | a name is a key exactly when some upload of that name gave a text that is non-empty and does not start with "Error" |
| App.CollectedKeys | aap.py:60-63 | the same key characterisation, stated on the uploads and `extract_text` |
| App.GatherLastWins | aap.py:62-63 | the value under a name is `clean_text` of the last stored text of that name: a later file of the same name overwrites |
| App.GatherOrder | aap.py:60-63 | the dictionary iterates its names in the order each was first stored |
| App.FirstOccurrencesMembers | aap.py:63 | keeping only first occurrences neither loses nor adds a name |
| App.NothingGatheredIff | aap.py:62-66 | the dictionary is empty exactly when every extracted text is empty or starts with "Error" |
| App.WhitespaceOnlyStoredEmpty | aap.py:62-63 | a whitespace-only text passes the test and is stored as `""`, because cleaning comes after the test |
| App.ParseFailureNeverStored | aap.py:62 | the text of an upload whose parser raised is never stored |
| App.AllParseFailuresCollectNothing | aap.py:60-68 | when every parser raises, nothing is stored, so the run halts before any request |
| App.ResumeStartingWithErrorDropped | aap.py:62 | a genuine résumé whose text begins with "Error" is dropped although its parser succeeded |
| App.CleanTwoWords | utils.py:7-9 | two whitespace-free words with one whitespace character between them clean to the words with one space between them |
| App.DocxTwoParagraphs | aap.py:61-63 | a Word file of two one-word paragraphs is stored as the two words joined by one space |
| App.PdfExample | aap.py:61-63 | a PDF whose pages read "Alpha " and nothing is stored as "Alpha" |
| App.LeaderboardGate | aap.py:76 | the test passes exactly for a non-empty list whose first element contains "filename". A non-list is rejected, an empty list raises `IndexError`, and a number, boolean or null first element raises `TypeError` |
| App.SentinelPassesGate | aap.py:76 | the failure record of the ranking call passes the leaderboard test |
| App.PresentColumns | aap.py:81-86 | the string column labels of `pd.DataFrame(ranked_data)`. When the first element is a dict they are every key of every dict record. Otherwise pandas uses integer labels only, so there are none |
| App.KeepPresent | aap.py:86 | `[c for c in cols if c in present]`. Its contract is `App.KeepPresentSpec` |
| App.KeepPresentSpec | aap.py:86 | the kept columns are exactly the listed ones that are present, in the listed order. None is kept exactly when no listed column is present |
| App.SentinelColumns | aap.py:84-87 | the failure record is shown under the columns `filename` and `reason` only |
| App.Present | aap.py:76-87 | the leaderboard is shown exactly when the test passes and, if the first element is a dict, every element is a dict. It holds every row, under the preferred columns the table has, in the fixed order, and no column when the first element is not a dict. A list of dicts with a later non-dict element raises `AttributeError` in `pd.DataFrame`. The failure notice is shown exactly for a non-list or a first element without "filename" |
| App.RecordThenNonRecordCrashes | aap.py:81 | a reply whose first record is a dict with "filename" and whose second element is not a dict crashes with `AttributeError` before any table is drawn |
| App.StringFirstRecordNoColumns | aap.py:76-87 | a reply whose first element is a string containing "filename" passes the test and is shown with every row and no named column |
| App.FailureShownAsLeaderboard | aap.py:76-87 | a failed request or decode is shown as a one-row table with columns `filename` and `reason`, not as the failure notice |
| App.Run | aap.py:33-76 | a failed guard halts with its message. If no text was stored, the run halts with "Could not extract text from any of the uploaded files." Otherwise the prompt is built from the collected dictionary and the ranking result is presented |

## Left out

- Streamlit rendering is not modelled: the page layout, `st.error` text output, balloons, the spinner, `st.dataframe` column configuration and the per-candidate expanders. `st.stop()` is the `Halted` outcome of `App.Run`.
- The expanders (`aap.py:108-112`) call `candidate.get(...)` on every record. When the first element is a string or a list, that raises `AttributeError` after the table is drawn. This is presentation, so it is not modelled.
- The progress bar (`aap.py:58`, `aap.py:64`, `aap.py:73`) is not modelled. It is floating-point UI state and does not affect the result.
- `genai.configure` and `GenerativeModel` (`aap.py:48-54`) are not modelled, and neither is their "API Configuration Error" halt. These are foreign calls whose failure conditions cannot be seen from this code.
- `generate_content` and `json.loads` are not modelled. They are the parameters `generate` and `decode` of `Ranking.RankingResult`, each giving a value or the message of the exception it raises. An exception raised while reading `response.text` counts as a failed request.
- `python-docx` and `pypdf` are not modelled. An upload carries the parser's paragraph texts, its page texts (text, `None` or an exception per page), or the exception the parser raises on opening the file.
- JSON numbers are modelled as integers. No property here depends on their values.
- The pandas `DataFrame` is modelled only by its string column labels (`App.PresentColumns`) and by the `AttributeError` a list of dicts with a later non-dict element raises.
- App.Present: when the first element is a string or a list, pandas builds integer-labelled columns, and the model shows the table with no named column whatever the later elements are. Whether pandas raises for some mixes of lists and other elements is not modelled.
- A missing file selection (`None`) is modelled as the empty sequence. `not uploaded_files` treats the two alike.
- Repeated runs with identical inputs and an identical model reply give identical results. Every operation here is a function of its inputs, so this is not stated as a separate lemma.

# AI-Powered Resume Analyzer — verified model of the matching and ranking core

The application compares a resume (an uploaded PDF) with a job description. A job
seeker gets a similarity score and a verdict. A recruiter uploads many resumes and gets
them ranked by score. A separate keyword gap analysis lists job-description words that
the resume lacks. This project models that logic in Dafny and proves what it promises.

- `text.dfy` (module `Text`): Python's `str.lower()` and `str.split()` as the gap analysis
  uses them. `IsSpace` is the full set of characters Python's `str.isspace()` accepts.
- `processor.dfy` (module `Processor`): `extract_text_from_pdf`, `calculate_match_score` and
  `find_missing_skills`.
- `ranking.dfy` (module `Ranking`): the stable descending sort that
  `sorted(results, key=..., reverse=True)` performs on the ranking rows.
- `main_app.py`'s logic in `main_app.dfy` (module `MainApp`): screen dispatch, the job
  seeker's analysis with its 70-point threshold, and the recruiter's ranking loop.
- `wrappers.dfy` (module `Wrappers`): an `Option` type for unset session keys and exceptions.

Modelling choices:
- The PDF library is replaced by the `PdfStream` datatype. Opening can fail. Otherwise the
  stream gives a sequence of pages, and each page yields its text or raises. Closing can
  also raise. The extraction loop is a method proved against the function `ExtractedText`.
- The sentence-embedding score on two non-empty texts is a function-typed parameter
  `similarity`. It stands for cosine similarity × 100, rounded to two decimals. Only the
  empty-input guard is fixed by the model.
- `list(missing)[:10]` enumerates a set in an order Python does not define. So
  `FindMissingSkills` is a method, and it picks elements with `:|`. Its contract fixes which
  tokens may appear and how many. It does not fix which ten are chosen.
- Scores are `real`. The sort only compares them.

What the code does not do, and neither does the model:
- Extraction does not collapse or trim whitespace. The page texts are concatenated as they
  are, with no separator. A document with zero pages extracts to `""` rather than an error,
  so it scores 0.0 (`TextlessResumeGetsTip`).
- The gap analysis splits on whitespace only. There is no word-character tokenisation, no
  stop-word list and no length filter. Punctuation stays attached to tokens.
- A file whose extraction fails does not get the guard's fixed 0.0. Its text is the
  non-empty string `"Extraction Error: ..."`, and the embedding model scores that marker
  text like any other text (`ScoreOf`).
- The ranking screen computes no count, maximum or mean of the scores; it shows only the
  sorted table.
- The job-seeker screen never calls the gap analysis.

## Model

| member | source | states |
|---|---|---|
| `Text.Lower` | processor.py:49-50 | `lower()` keeps the length and lowers each character on its own, so no character of the result is an upper-case letter |
| `Text.Split` | processor.py:49-50 | `split()` gives the maximal runs of non-whitespace characters: every token is non-empty, has no whitespace, and consists of characters of the text |
| `Text.TokenSet` | processor.py:49-50 | `set(text.lower().split())` holds only tokens that are non-empty, whitespace-free and equal to their own lower-case form |
| `Text.SplitAtSpace` | processor.py:49-50 | any one whitespace character separates: the tokens of `a + sp + b` are the tokens of `a` followed by those of `b`, whatever spacing `a` and `b` have |
| `Text.SplitJoin` | processor.py:49-50 | splitting undoes joining words with single spaces: `" ".join(ws).split() == ws` for non-empty whitespace-free words |
| `Text.LowerIdempotent` | processor.py:49-50 | lowering twice equals lowering once, so the token set of a text ignores its case |
| `Processor.ExtractTextFromPdf` | processor.py:9-23 | without an exception, the result is the in-order concatenation of all page texts with no separator; after the first exception (open, a page, close) it is `"Extraction Error: "` followed by that exception's message |
| `Processor.PageTextAt` | processor.py:17-19 | each page's text appears unchanged in the concatenation of the page texts (the result when nothing fails), right after the texts of the pages before it |
| `Processor.ExtractedText` | processor.py:9-23 | the string extraction returns: after a failure, `"Extraction Error: "` followed by the first exception's message; without a failure the stream was opened, every page was read, and the result is the in-order concatenation of the page texts |
| `Processor.MarkerIsAmbiguous` | processor.py:17-23 | a page whose text is the error marker extracts to the same string as an unreadable stream, so the string alone cannot tell success from failure |
| `Processor.MatchScore` | processor.py:25-41 | an empty resume or job description scores exactly 0.0 and the model is not consulted; two non-empty texts get the model's score |
| `Processor.SetToSeq` | processor.py:56 | `list(s)` holds every element of the set once: same members, no duplicates, length equal to the set's size |
| `Processor.FindMissingSkills` | processor.py:43-56 | every returned token is in the job description's token set and not in the resume's; tokens are non-empty, whitespace-free, lower case and distinct; the count is min(10, number of missing tokens), and all of them are returned when there are at most 10; the result is empty exactly when every job-description token occurs in the resume |
| `Processor.MissingTokens` | processor.py:53 | a token is missing exactly when it is in the job description's token set and not in the resume's; all missing tokens are non-empty, whitespace-free and lower case; there are none exactly when every job-description token occurs in the resume |
| `Processor.ResumeContainingJdHasNoGaps` | processor.py:49-53 | a resume made of the job description, one whitespace character and any further text leaves no missing tokens |
| `Ranking.SortByScoreDesc` | main_app.py:160 | the sort returns a permutation of its input rows, with the same length |
| `Ranking.SortSorted` | main_app.py:160 | the sorted rows are non-increasing in score |
| `Ranking.SortStable` | main_app.py:160 | for every score value, the rows with that score appear in the same relative order before and after sorting |
| `Ranking.StableSortIsUnique` | main_app.py:160 | any descending ordering that keeps equal scores in input order equals the model's sort, so the sort is exactly what a stable `sorted(..., reverse=True)` returns |
| `MainApp.Dispatch` | main_app.py:168-177 | a logged-out session sees the register page exactly when register mode is set and the login page otherwise; a logged-in session sees the job-seeker dashboard exactly when its role is "Job Seeker" and the recruiter dashboard for every other role; no logged-out session reaches a dashboard |
| `MainApp.InitialSessionSeesLogin` | main_app.py:10-15 | a session with the start-up defaults is shown the login page |
| `MainApp.Classify` | main_app.py:126-130 | a score of 70 or more is an excellent match, and any lower score gets the improvement tip |
| `MainApp.AnalyzeResume` | main_app.py:116-132 | the action only warns when the file is missing or the job description is empty; otherwise the score is the match score of the extracted text and the verdict is its classification |
| `MainApp.TextlessResumeGetsTip` | main_app.py:120-130 | a PDF whose pages have no text extracts to the empty string, scores 0.0 and gets the improvement tip |
| `MainApp.RankCandidates` | main_app.py:148-164 | the action only warns when there are no files or the job description is empty; otherwise it builds one row per file in upload order, each with that file's name and the score of its extracted text; the shown ranking is a permutation of those rows, non-increasing in score, keeps ties in upload order, and has one row per file |
| `MainApp.ScoreOf` | main_app.py:154-156 | each file's row carries the file's name; an empty job description gives 0.0; a file that extracts cleanly gets the match score of its page texts; a file whose extraction fails does not get the guard's fixed 0.0 but the embedding model's score of the marker text |
| `MainApp.TiedCandidatesKeepUploadOrder` | main_app.py:160 | files A, B, C scoring 90, 90, 70 are ranked A, B, C |

## Left out

- Sentence embedding, cosine similarity and rounding to two decimals (processor.py:7, 34-40) are a foreign neural model and floating-point arithmetic. They are the `similarity` parameter.
- `MatchScore`: the bound of the score to [-100, 100] is not stated. It depends on the embedding model, which is a parameter here.
- PDF parsing by PyMuPDF (processor.py:16, 19-20) is a foreign library. Its outcomes are the `PdfStream` datatype. A failure of `pdf_file.read()` counts as a stream that cannot be opened.
- `Text.Lower` maps only the ASCII letters A–Z. Python's `str.lower()` also maps other Unicode letters, and for a few of them it changes the length.
- The order in which Python iterates a set, and so which ten tokens `find_missing_skills` returns when more than ten are missing, is left open on purpose.
- Floating-point scores, including NaN, are not modelled. Scores are mathematical reals.
- Streamlit UI: page setup, CSS, widgets, spinner, progress bar, balloons, tables and reruns (main_app.py:7-26, 30-98, 102-114, 151, 157, 161-162) are display only.
- The login and registration queries (main_app.py:43-57, 89-97) are database I/O.
- The session writes at login (main_app.py:50-52), by the register buttons (60, 96) and at logout (104, 139) are not modelled; `Dispatch` only reads a session.
- database_helper.py (the MySQL connection and the storage of analyses and shortlists) is I/O and is not part of this model.

# DocuGuard review bot, modelled in Dafny

DocuGuard is a GitHub bot. When a pull request is opened or updated, it compares every
changed source file's diff with the nearest `README.md`, using a language-model call. It posts
a comment for each verdict that is not "OK". This project models that bot's decision logic and
proves properties of it:

- `utils.dfy` (module `Utils`): README resolution, `find_nearest_readme`. The candidate is the
  file's own directory joined with `README.md`, with backslashes turned into `/`. If that path is
  not known, the root `README.md` is used when it is known. Otherwise there is no result.
- `action.dfy` (module `Action`): one run of the GitHub Action, `run_review`. It turns the event
  payload into owner, repository and pull-request number (or an exit code). It builds the
  known-path list. Then it loops over the changed files, which covers:
  - the extension filter and the empty-diff skip;
  - README lookup and fetch, using empty text when the fetch fails;
  - the verdict call and the `strip().upper() != "OK"` test;
  - the comment body, continuing when a post fails.
- `server.dfy` (module `Server`): the `POST /webhook` routing decision.
- `pystr.dfy` (module `PyStr`): the Python `str` methods the code relies on (`strip`, `upper`,
  `endswith` with a tuple, one-character `replace`, `split` on one character), over ASCII.
- `wrappers.dfy` (module `Wrappers`): `Option`, used for Python's `None`, absent JSON keys and
  failed collaborator calls.

GitHub and the language model are parameters of the methods, all total Dafny functions:

- `listFiles` stands for `pulls.list_files`; `None` means the listing failed.
- `fetchDoc` stands for `repos.get_content` followed by base64 and UTF-8 decoding; `None` means
  either step failed.
- `post` stands for `issues.create_comment`; `false` means the post raised.
- `verdict` stands for `analyze_code_vs_docs`. That function turns its own failures into an
  error string, so it always returns text.

`ReviewFiles` returns three sequences:

- `analyses`: every file that reached the verdict call, with the README path, its text and the
  verdict;
- `comments`: every body handed to `post`;
- `delivered`: the bodies that `post` accepted.

The method is proved against the specification functions `Analyses`, `Comments` and `Delivered`.
The lemmas about those functions state the filtering, the order and the at-most-one-comment
properties.

Paths are POSIX paths relative to the repository root, with no leading `/` and no doubled `/`.
GitHub reports pull-request files in this form. `Utils.Dirname` is "the text before the last
`/`", which agrees with `posixpath.dirname` on such paths. `Utils.JoinPath` is `posixpath.join`
for two components.

The doc comment of `find_nearest_readme` (utils.py:4-6) says it also searches
parent directories. The code checks only the same directory and the root, and the model
follows the code:

- It does not walk up through intermediate ancestor directories, and it has no iteration bound.
- It has no unconditional `"README.md"` fallback: when neither candidate is known the result is
  `None`. `AncestorNotConsulted` shows that an ancestor's README is not found.
- A backslash is not a separator to POSIX `dirname`. So `a\b\c.py` is a root-level file and
  does not find `a/b/README.md` (`BackslashesAreNotSeparators`). Only backslashes left of the
  last `/` are normalised (`BackslashInDirectoryNormalised`).

## Model

| member | source | states |
|---|---|---|
| `PyStr.TrimStart` | action.py:83 | `lstrip()`, characterised by `TrimStartSpec` |
| `PyStr.TrimEnd` | action.py:83 | `rstrip()`, characterised by `TrimEndSpec` |
| `PyStr.Strip` | action.py:83 | `strip()`, characterised by `StripSpec` |
| `PyStr.StripSpec` | action.py:83 | the result is the slice of the input between a whitespace-only prefix and a whitespace-only suffix, and is empty or has a non-space at both ends |
| `PyStr.Upper` | action.py:83 | `upper()` over ASCII, characterised by `UpperSpec` |
| `PyStr.TrimStartSpec` | action.py:83 | leading whitespace (Python's ASCII `isspace` set) is removed and nothing else; the result is empty or starts with a non-space |
| `PyStr.TrimEndSpec` | action.py:83 | trailing whitespace is removed and nothing else; the result is empty or ends with a non-space |
| `PyStr.UpperSpec` | action.py:83 | same length; each character is its ASCII upper-case form |
| `PyStr.EndsWithAny` | action.py:59 | `endswith` with a tuple holds exactly when one of the suffixes ends the string |
| `PyStr.ReplaceChar` | utils.py:10 | same length; every `from` character becomes `to`, the others stay; no `from` is left |
| `PyStr.Split` | action.py:40 | `split` gives at least one piece and no piece holds the separator |
| `PyStr.SplitJoin` | action.py:40 | joining the split pieces with the separator gives back the string |
| `PyStr.SplitLength` | action.py:40 | there is one more piece than there are separators |
| `Utils.Dirname` | utils.py:7 | no `/` gives `""`; otherwise the result is the prefix before a `/` after which no `/` follows |
| `Utils.DirnameOfChild` | utils.py:7 | the directory of `dir/name`, where `name` has no `/`, is `dir` |
| `Utils.JoinPath` | utils.py:10 | `os.path.join(dir, name)` on POSIX: an absolute `name` replaces `dir`, and a `/` is put between them unless `dir` is empty or already ends with one; `JoinReadmeIn` and `CandidateOfNestedFile` state the case used |
| `Utils.Candidate` | utils.py:7-10 | the same-directory path looked up first; `CandidateOfNestedFile` and `CandidateOfRootFile` state its value |
| `Utils.FindNearestReadme` | utils.py:3-18 | a known same-directory candidate is returned, even when `README.md` is also known; otherwise a known `README.md` is returned; a result is in `all_files`, has no backslash and is either the same-directory candidate or `README.md`; a known `README.md` means a result always exists; the result is `None` exactly when neither candidate is known |
| `Utils.CandidateOfNestedFile` | utils.py:7-10 | for `dir/name` the candidate is the normalised `dir` followed by `/README.md` |
| `Utils.CandidateOfRootFile` | utils.py:7-10 | a path with no directory, such as `main.py`, has candidate `README.md` |
| `Utils.RootFileResolution` | utils.py:7-18 | a root-level file resolves to `README.md` when that is known, and to `None` otherwise |
| `Utils.OnlyTwoPathsConsulted` | utils.py:9-18 | two lists that agree on the candidate and on `README.md` give the same result |
| `Utils.AncestorNotConsulted` | utils.py:9-18 | `dir/sub/name` with only `dir/README.md` known resolves to `None` |
| `Utils.BackslashesAreNotSeparators` | utils.py:7-10 | `a\b\c.py` does not find `a/b/README.md` but does find a root `README.md` |
| `Utils.BackslashInDirectoryNormalised` | utils.py:10 | `a\b/c.py` finds `a/b/README.md` |
| `Action.ParseEvent` | action.py:33-43 | no `pull_request` exits with 0; every other exit is 1; a review target's number is the payload's and `owner + "/" + name` is the full name, with no `/` in either part |
| `Action.ParseEventCases` | action.py:33-43 | a review happens exactly when the number and full name are present and the full name has exactly one `/`; exit 1 exactly when a pull request is present but that fails |
| `Action.KnownPaths` | action.py:51 | `repo_files`: one entry per changed file holding its filename, in order, and then `README.md` as the last entry |
| `Action.Filenames` | action.py:51 | one name per changed file, in order |
| `Action.ReadmeAlwaysResolved` | action.py:51-69 | with `README.md` appended to the known paths, resolution never gives `None`, and gives `README.md` or a changed filename |
| `Action.IsConsistent` | action.py:83 | the test `suggestion.strip().upper() == "OK"`; `ConsistentIff` states which verdicts pass it |
| `Action.ConsistentIff` | action.py:83 | a verdict counts as "OK" exactly when it is `o`/`O` then `k`/`K` with only whitespace around |
| `Action.ConsistentIsPadded` | action.py:83 | a consistent verdict is `ok` in some case at the index where leading whitespace ends, with only whitespace around |
| `Action.PaddedIsConsistent` | action.py:83 | `ok` in any case with only whitespace around is consistent |
| `Action.ExampleVerdicts` | action.py:83 | `" ok\n"` is consistent; `"Looks OK to me"` is flagged |
| `Action.CommentBody` | action.py:84 | the body posted for a flagged verdict; `CommentBodyRoundTrip` and `CommentBodyInjective` state its shape |
| `Action.CommentBodyRoundTrip` | action.py:84 | the body is the fixed header followed by the verdict, which can be read back |
| `Action.CommentBodyInjective` | action.py:84 | different verdicts give different bodies |
| `Action.IsSourceFile` | action.py:59 | the extension filter over `.py`, `.js`, `.ts`, `.go`, `.java`, `.cpp`; `EndsWithAny` states what it tests |
| `Action.Diff` | action.py:63 | the diff is the patch when GitHub gives one and `""` otherwise |
| `Action.Reviewable` | action.py:59-66 | a file passes the loop's two filters: a source extension and a non-empty diff |
| `Action.DocText` | action.py:72-77 | `readme_text`: the fetched text, or `""` when fetching or decoding failed |
| `Action.Analyze` | action.py:69-80 | the README path is the resolved one and is known; the doc text is the fetched text, or `""` when the fetch fails; the verdict is asked about this diff, text and filename |
| `Action.ReviewableFiles` | action.py:59-66 | the files kept are exactly the changed files that have a source extension and a non-empty diff |
| `Action.ReviewableFilesAppend` | action.py:57-66 | the filter keeps order and multiplicity: the kept files of two batches are those of the first, then those of the second |
| `Action.ReviewableFilesOne` | action.py:59-66 | one file is kept exactly when it is reviewable |
| `Action.Analyses` | action.py:57-80 | the analyses of the loop over a file list; characterised by `AnalysesOfReviewableFiles` and `AnalysesAppend` |
| `Action.Comments` | action.py:83-84 | the bodies handed to `post`; characterised by `FlaggedIsCommented`, `CommentIsOfFlagged`, `CommentsAtMostOneEach` and `CommentsAppend` |
| `Action.Delivered` | action.py:85-89 | the bodies `post` accepted; characterised by `DeliveredAppend` and `FailedPostDoesNotStop` |
| `Action.AnalysesOfReviewableFiles` | action.py:57-80 | the loop analyses exactly the reviewable files, one each, in input order |
| `Action.AnalysesAppend` | action.py:57 | the analyses of two batches are those of the first, then those of the second |
| `Action.FlaggedIsCommented` | action.py:83-86 | every analysis whose verdict is not consistent has its body among the comments |
| `Action.CommentIsOfFlagged` | action.py:83-86 | every comment is the body of an analysis whose verdict is not consistent |
| `Action.CommentsAtMostOneEach` | action.py:57-86 | there are no more comments than analyses |
| `Action.CommentsAppend` | action.py:57-86 | comments follow the order of the analyses |
| `Action.DeliveredAppend` | action.py:85-89 | delivered comments of two batches are those of the first, then those of the second |
| `Action.FailedPostDoesNotStop` | action.py:85-89 | a post that fails drops only its own comment; later comments are still delivered |
| `Action.ReviewFiles` | action.py:51-91 | the loop's analyses, comments and delivered comments are those of the specification functions over the changed files, with `README.md` appended to the known paths |
| `Action.RunReview` | action.py:31-91 | a parse exit gives its code and no review; a failed listing exits with 1; otherwise the run reviews the listed files and exits with 0 |
| `Server.Webhook` | server.py:9-20 | every JSON reply has HTTP code 200 and is `processing` or `ignored`; it is `processing` exactly for a `pull_request` event whose action is `opened` or `synchronize`; other events are `ignored`; a missing key read by the handler gives an internal server error |
| `Server.BodyReadOnlyForPullRequests` | server.py:14 | for any event other than `pull_request`, the body does not affect the reply |
| `Server.OtherActionsIgnored` | server.py:14-20 | a `pull_request` event with any other action is `ignored` with 200 |
| `Server.ClosedIsIgnored` | server.py:14-20 | a `closed` pull request is `ignored` with 200 |

## Left out

- brain.py is not part of this model. It builds a prompt and calls Gemini, a foreign call with
  unspecifiable output. It is the `verdict` parameter, and any string may come back, including
  its own error strings.
- GitHub access through `GhApi` is network I/O. The `listFiles`, `fetchDoc` and `post`
  parameters stand for it. How `get_content` answers, and base64 and UTF-8 decoding, appear
  only as success (text) or failure (`None`).
- The checks of `GITHUB_TOKEN` and `GITHUB_EVENT_PATH` (action.py:13-25) read environment
  variables. Reading and parsing the event file (action.py:27-28) is I/O. The payload is given
  already parsed, with the keys the code reads.
- A `pull_request` or `repository` value that is present but not a JSON object is not modelled,
  and neither is a `full_name` that is not a string. In Python each of these raises inside the
  `try` of action.py:31-43, so the run exits with 1.
- A pull-request `number` of another JSON type, such as the string `"7"`, is not modelled. Nothing
  at action.py:34-40 checks its type, so the run goes on and hands it to `list_files` (action.py:49).
- All `print` logging is left out, and so are the emoji in the log lines.
- Flask setup, `load_dotenv` and `app.run` (server.py:1-6, server.py:22-23) are left out.
- `Server.Webhook` starts from a parsed JSON object. `request.json` is read at server.py:10, inside
  `webhook()`, for every delivery, so a body that is not JSON makes Flask answer with a client
  error whatever the event; a JSON body that is not an object fails at the first key read on a
  `pull_request` event. Neither reply is modelled.
- An `action` value that is not a string is not modelled. Such a value is never in the list,
  so it is `ignored`, like any other string.
- `Utils.Dirname`: does not model `posixpath.dirname` on absolute paths or on paths with doubled
  or trailing slashes (where it strips trailing slashes). Pull-request filenames have neither.
- `PyStr.Strip`, `PyStr.Upper`: ASCII only. Unicode whitespace such as
  U+00A0 is not trimmed, and non-ASCII letters are not upper-cased. The model can differ from
  Python only on verdicts that contain non-ASCII characters.
- The collaborators are total functions of their arguments, so two calls with the same arguments
  get the same outcome. Two files in one directory fetch their README with one shared outcome, and
  two identical comment bodies share one `post` result. GitHub guarantees neither: a fetch or a
  post that fails once and succeeds on a second call with the same arguments is not modelled.
- Windows `os.path` behaviour is left out: the model uses POSIX path rules.

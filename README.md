# DocuMind backend — a Dafny model

DocuMind answers questions about an indexed PDF or GitHub repository. Its
backend keeps a module-level document store (`docs`, a list of
`{text, source}` records) in step with a vector index. `/upload_pdf` and
`/github` reset the store and fill it with a summary followed by the chunks of
the ingested text. `/ask` takes the nearest neighbours of the question and
keeps the first `top_k` of them that pass an optional source filter. It records
per source the least distance among the kept hits, then asks a chat model with
the kept blocks as context.

This project models that backend (`backend/rag.py` and `backend/api.py`) and
proves what it promises:

- `Rag.Store` is a class with `docs: seq<Doc>` and `indexSize: nat`. Its
  invariant `Valid()` says the index holds one vector per doc. `Reset`,
  `AddDocuments` and `Ask` are methods. The selection loop of `ask` is
  `SelectBlocks`, a method over the docs that `Ask` calls.
- `Retrieval` states what `ask` computes without loops:
  - `Matching` is the hits that pass the filter;
  - `Selected` is the first `topK` of them;
  - `Aggregate` is the insertion-ordered per-source minimum table, modelled as
    Python's dict;
  - `AskSpec` is the whole reply.

  The lemmas there prove the bounds, the filter, the subsequence property, the
  per-source minimum, uniqueness and first-appearance order of the sources, and
  the two early exits.
- `Api` holds the handlers:
  - URL validation and owner/repo extraction (`OwnerRepo`);
  - the issue filter and text ordering (`IssueTexts`, `CollectTexts`);
  - the ingestion handlers (`Github`, `UploadPdf`), which reset first and then
    store `[summary] + chunks`;
  - `Query` and `Debug`.
- `Builtins` gives the Python string built-ins the code relies on: `split`,
  `rstrip`, `strip` with Python's whitespace set, `join`, `in` and slicing.
  Their lemmas (`SplitJoin`, `SplitSnoc`, `RStripRun`, `StripEmptyIffBlank`)
  are what the URL and issue properties rest on.

Foreign components are parameters. The nearest-neighbour search is
`search: nat -> seq<Hit>`, from the number of neighbours asked to the
`(distance, idx)` rows. Its contract, `SearchContract`, is that it returns at
most k rows whose ids lie below the index size. The chat model is
`chat: string -> string`; it is called with temperature 0 and modelled as a
function of the prompt. `chunk_text` is `chunk: string -> seq<string>`. The
three GitHub requests, with their JSON and the base64 README, are
`fetch: (owner, repo) -> GitHubData`; a field is `None` when its request did
not answer 200. The PDF reader is the list of per-page extracted texts
(`None` when a page has none).

## Model

| member | source | states |
|---|---|---|
| `Rag.Store.constructor` | backend/rag.py:21-23 | with nothing persisted the store starts with an empty index and no docs |
| `Rag.Store.Reset` | backend/rag.py:26-29 | afterwards docs is empty, the index is empty, and the two are aligned |
| `Rag.Store.AddDocuments` | backend/rag.py:39-59 | returns false and changes nothing for an empty list; otherwise returns true, the index gains one vector per text and docs becomes old docs followed by one `{text, source}` record per text in order, so index and docs stay aligned |
| `Rag.Tagged` | backend/rag.py:53-54 | the appended records: one per text, the k-th being `{text: texts[k], source}` |
| `Rag.Store.Ask` | backend/rag.py:62-121 | the reply equals AskSpec of the current docs: the store alignment makes every hit id a valid position in docs |
| `Rag.SelectBlocks` | backend/rag.py:69-86 | the loop's blocks are the texts of the first topK hits that pass the filter, and its table is the per-source aggregate of exactly those hits |
| `Retrieval.SelectSkip` | backend/rag.py:75-76 | a hit the filter rejects leaves the kept hits, the blocks and the table as they were |
| `Retrieval.SelectKeep` | backend/rag.py:78-86 | an admitted hit appends its text to the blocks and records its distance, keeping the loop state in step with the matching hits; once topK blocks are kept they are exactly the selected ones |
| `Retrieval.SelectDone` | backend/rag.py:72-86 | a loop that runs through every hit without reaching topK keeps all the matching hits |
| `Rag.SummaryPrompt` | backend/rag.py:131-137 | the summary prompt is the fixed instruction followed verbatim by the snippet, and its last character is a newline |
| `Rag.Summarize` | backend/rag.py:124-145 | the summary is the chat model's reply to the prompt built from `text[:max_chars]`, stripped: it is the piece of that reply after its leading whitespace, only whitespace surrounds it, and it has no whitespace at either end |
| `Retrieval.Matching` | backend/rag.py:72-78 | at most one match per hit, each admitted by the source filter |
| `Retrieval.MatchingPositions` | backend/rag.py:72-78 | the matches are exactly the admitted hits in hit order: increasing positions, and every admitted hit is present |
| `Retrieval.MatchingPrefix` | backend/rag.py:72-86 | the matches of a prefix of the hits are a prefix of all the matches |
| `Retrieval.NoFilterKeepsAll` | backend/rag.py:75-76 | with a `None` or empty filter every hit is kept, position for position |
| `Retrieval.SourceFilter` | backend/rag.py:75-76 | with a non-empty filter every kept block comes from a doc of that source |
| `Retrieval.Selected` | backend/rag.py:85-86 | the kept hits are a prefix of the matches, of length min(topK, number of matches) |
| `Retrieval.SelectedIsSubsequence` | backend/rag.py:67-86 | at most topK blocks and at most one per hit are kept; they are a subsequence of the hits in hit order, each admitted by the filter |
| `Retrieval.SelectedAtCap` | backend/rag.py:85-86 | once topK hits of a prefix match, stopping there yields exactly the kept hits |
| `Retrieval.AskLimits` | backend/rag.py:67-86 | at most min(topK, len(docs)) blocks are kept from the min(2*topK, len(docs)) hits asked for |
| `Retrieval.ScoreTable.Put` | backend/rag.py:80-83 | a dict store keeps keys distinct and mapped and maps the key to the new value; a new key is appended to the order and an existing one leaves it unchanged, the key set gains exactly that key, and every other key keeps its value |
| `Retrieval.Record` | backend/rag.py:80-83 | the entry for the hit's source becomes the smaller of the old entry (infinity when absent) and the hit's distance, and is one of the two; the key set gains exactly that source, a new source goes last in the order, and every other entry is unchanged |
| `Retrieval.ScoreTable.Items` | backend/rag.py:116-120 | one citation per key, in key order, each carrying its key's value |
| `Retrieval.Admits` | backend/rag.py:75 | with no filter or an empty one every doc passes; with a non-empty one a doc passes exactly when its source equals it |
| `Retrieval.AskPrompt` | backend/rag.py:93-106 | the prompt is the fixed instruction followed verbatim by the context, then the question lead verbatim, then the question verbatim |
| `Retrieval.AskSpec` | backend/rag.py:62-121 | the reply of `ask`: never more sources than top_k or than there are docs |
| `Retrieval.Aggregate` | backend/rag.py:80-83 | the table built from the kept hits is a well-formed insertion-ordered dict |
| `Retrieval.AggregateKeys` | backend/rag.py:80-83 | the table's keys are exactly the sources of the kept hits |
| `Retrieval.AggregateMin` | backend/rag.py:80-83 | each entry is the least distance among that source's kept hits, attained by one of them |
| `Retrieval.RecordOrder` | backend/rag.py:80-83 | recording a hit keeps the key order: old keys keep their place, a new source goes last, which is where it first appears |
| `Retrieval.AggregateOrder` | backend/rag.py:80-83 | keys are ordered by the position where each source first appears among the kept hits |
| `Retrieval.FirstIndex` | backend/rag.py:80-83 | the first position of a source among the kept hits, or the length when it does not occur |
| `Retrieval.CitationsCorrect` | backend/rag.py:80-120 | the `sources` list names each source once, names exactly the kept sources, carries each one's minimum distance, follows first-appearance order, and is empty only when nothing was kept |
| `Retrieval.AskEarlyExits` | backend/rag.py:63-91 | with no docs the answer is "No documents indexed yet.", with no kept block it is "I don't know."; sources is empty exactly in these two cases |
| `Builtins.Split` | backend/api.py:51 | `split("/")` yields at least one part and no part holds a slash |
| `Builtins.SplitJoin` | backend/api.py:51 | joining the parts of a split with the separator gives back the string |
| `Builtins.SplitSingle` | backend/api.py:51-52 | a split yields one part exactly when the separator does not occur |
| `Builtins.SplitSnoc` | backend/api.py:51-52 | splitting `a + "/" + b` with b slash-free gives the parts of a followed by b |
| `Builtins.LastIndexOf` | backend/api.py:51 | the position of the last separator, or -1 when there is none |
| `Builtins.RStrip` | backend/api.py:51 | `rstrip("/")` is the longest prefix that does not end in a slash; everything removed is a slash |
| `Builtins.RStripRun` | backend/api.py:51 | stripping any run of trailing slashes from a string not ending in one gives it back |
| `Builtins.Strip` | backend/api.py:75 | `strip()` is the piece of the string that starts after its leading whitespace; everything before and after that piece is whitespace, and the piece has no whitespace at either end |
| `Builtins.StripEmptyIffBlank` | backend/api.py:75 | `strip()` is empty exactly when the string is whitespace only |
| `Builtins.JoinEnds` | backend/api.py:78 | `sep.join(xs)` is empty for no strings; otherwise it starts with the first string, ends with the last, and is at least as long as its separators |
| `Builtins.Prefix` | backend/api.py:108 | `s[:n]` is a prefix of s of length min(n, len(s)) |
| `Api.OwnerRepo` | backend/api.py:51-52 | IndexError exactly when the URL without trailing slashes holds no slash; otherwise owner and repo are slash-free, repo is non-empty, and `owner + "/" + repo` ends the trimmed URL, preceded there by a slash or by nothing |
| `Api.OwnerRepoOfUrl` | backend/api.py:51-52 | for `prefix + o + "/" + r` plus any number of trailing slashes, with prefix empty or ending in a slash, o slash-free (possibly empty) and r non-empty and slash-free, the result is (o, r); this covers a one-slash URL such as `github.com/foo` |
| `Api.LastTwoParts` | backend/api.py:51-52 | the last two parts of a split, joined by the separator, end the string and are preceded by the separator or by nothing |
| `Api.IsGithubUrl` | backend/api.py:48 | the URL is accepted exactly when "github.com" occurs in it |
| `Builtins.FilterMapSelect` | backend/api.py:72-76 | a filtered comprehension yields exactly the images of the kept elements, in order: increasing positions, and every kept element present |
| `Api.IssueText` | backend/api.py:74 | an issue's text is its title (null or missing as ""), a newline, then its body (likewise) |
| `Api.KeepsIssue` | backend/api.py:73-75 | an issue is kept exactly when it has no `pull_request` key and its title and body are not both whitespace only |
| `Api.BlankIssueText` | backend/api.py:74-75 | `title + "\n" + body` is whitespace only exactly when title and body both are |
| `Api.IssueTextsSelect` | backend/api.py:72-76 | the issue texts are exactly `title + "\n" + body` (missing or null as "") of the non-pull-request issues whose text is not blank, in API order |
| `Api.StripsToText` | backend/api.py:75 | `t.strip()` is truthy exactly when t is not whitespace only |
| `Api.CollectIssueTexts` | backend/api.py:72-76 | the issue loop appends exactly the issue texts: pull requests and issues whose text strips to nothing are skipped |
| `Api.RepoTexts` | backend/api.py:54-76 | at most two texts more than there are issues; a non-empty description comes first, and a fetched README comes right after the description's place |
| `Api.CollectTexts` | backend/api.py:54-76 | the texts are the description if non-empty, then the README, then the kept issues in API order |
| `Api.Github` | backend/api.py:44-91 | resets the store first; a URL that is empty or lacks "github.com" gets the error reply and leaves the store empty, as does a URL with fewer than two segments, which raises IndexError; otherwise the store holds exactly `[summary] + chunks` of the joined texts, all tagged "github" |
| `Api.PdfText` | backend/api.py:28 | the document text is empty exactly when no page has any extracted text |
| `Api.PdfTextAppend` | backend/api.py:28 | the document text is the concatenation of the page texts in page order |
| `Api.PdfTextPage` | backend/api.py:28 | a page without extractable text contributes "", one with text contributes exactly it |
| `Api.UploadPdf` | backend/api.py:23-40 | resets the store; afterwards it holds exactly `[summary] + chunks` of the page text, all tagged "PDF", and the reply carries the summary |
| `Api.Query` | backend/api.py:96-98 | `/ask` replies with AskSpec for no filter and top_k 5 |
| `Api.Debug` | backend/api.py:103-109 | reports the number of docs and, per doc in order, its source and a prefix of its text of length min(200, len) |

## Left out

- The score transform `round(1 / (1 + v), 4)` is floating point, so a citation carries the minimum L2 distance it is applied to. Distances are reals.
- The embeddings and the FAISS search are the `search` parameter. Its contract is that it returns at most k rows whose ids lie below the index size. Only the number of vectors in the index is modelled.
- Rag.Store.Ask: requires `topK >= 1`, because the search is never asked for zero neighbours. The only caller, `/ask`, uses 5.
- Rag.SelectBlocks: the `break` of the loop is a `return` from this method, which takes the docs as a parameter and leaves the store alone. The rest of `ask` then runs on its results.
- Exceptions raised by the foreign calls are not modelled; each parameter is a total function. In the ingestion handlers, an exception from `PdfReader` (backend/api.py:27), `requests.get` (backend/api.py:57, 64, 70), the summary's `openai.ChatCompletion.create` (backend/rag.py:139) or `model.encode` in `add_documents` (backend/rag.py:45) ends the handler after `reset_index()`, leaving the store empty, and the request fails. In `/ask`, an exception from `model.encode` (backend/rag.py:66) or `openai.ChatCompletion.create` (backend/rag.py:108) fails the request and leaves the store unchanged, since `ask` never resets or writes it.
- The chat model, the GitHub REST calls with their status codes, JSON and base64 decoding, the PDF reader, and `chunk_text` are all parameters. `chunk_text` comes from a `chunking` module that is not part of this model.
- Base64 or UTF-8 decoding errors of the README, and JSON of an unexpected shape, are not modelled.
- Persistence is left out: `faiss.write_index`, `pickle.dump`, the file removal in `reset_index`, and the reload from disk at module load. The constructor models a start with no saved files.
- The FastAPI routing, the CORS middleware and the frontend page are UI and transport glue.
- Concurrent requests racing on the module-level store are not modelled. Each handler runs to completion.

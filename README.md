# Azure Mistral OCR loader — a Dafny model

This project models `AzureMistralLoader`, the document loader of Open WebUI's
retrieval pipeline that sends a PDF to the Mistral OCR service hosted on Azure
and turns the service's reply into a list of page documents
(`backend/open_webui/retrieval/loaders/azure_mistral.py`).

The model covers the three parts of the loader whose behaviour is exact:

- **Construction** (`__init__`). The API key, then the endpoint, then the
  file's existence are checked, each refusing construction. The endpoint is
  then stored with all trailing `'/'` removed, and the request headers are
  built from the key. `AzureMistral.AzureMistralLoader.Create` returns the
  refusal as a `ConfigError`; the constructor stores the configuration in
  `const` fields, since nothing changes them after `__init__`.
- **Result mapping** (`_process_results`). An absent or empty `pages` list
  gives the `no_pages` placeholder. Otherwise each page record with both an
  `index` and a `markdown` whose stripped text is non-empty becomes a page
  document, in order, with metadata `page`, `page_label`, `total_pages`,
  `file_name`, `processing_engine` and `content_length`. When no record
  survives, the `no_valid_pages` placeholder is returned. The pure
  specification is `OcrResults.ResultDocuments`. The loop that builds the
  list is `AzureMistral.AzureMistralLoader.ProcessResults`, proved equal to it.
- **Loading** (`load`). The file read, the base64 encoding and the HTTP
  exchange (POST, status check, JSON decoding) are parameters. The read is
  given as its outcome, the encoder and the exchange as functions. Any
  failure gives the single `processing_failed` placeholder whose content is
  `"Error during processing: "` followed by the error message. So `load`
  never fails and always returns at least one document.

Module layout: `Wrappers` (Option, Result), `Text` (Python's `str.isspace`,
`strip()` and `rstrip(c)`), `PosixPath` (`os.path.basename`), `OcrResults`
(documents, metadata and the pure mapping), `AzureMistral` (the loader class).

`Text.IsWhitespace` lists the code points CPython's `str.isspace` accepts, so
`Strip` is Python's argument-less `strip()`. A record is kept (`Usable`) when
its markdown is not all whitespace. `Text.StripEmptyIff` shows this is the
same as the source's test that the stripped text is non-empty.

`rstrip("/")` removes every trailing `'/'`. The emptiness check runs before
the strip, so an endpoint of `"///"` is accepted and stored as `""`
(`Text.RStripCharOnlyC`).

## Model

| member | source | states |
|---|---|---|
| `Text.LStripSpec` | backend/open_webui/retrieval/loaders/azure_mistral.py:67 | the result is a suffix of the text; everything dropped is whitespace; the result is empty or starts with non-whitespace |
| `Text.RStripSpec` | backend/open_webui/retrieval/loaders/azure_mistral.py:67 | the result is a prefix of the text; everything dropped is whitespace; the result is empty or ends with non-whitespace |
| `Text.Strip` | backend/open_webui/retrieval/loaders/azure_mistral.py:67 | the stripped text is no longer than the input, and is empty or begins and ends with non-whitespace |
| `Text.StripIsTrimmedInfix` | backend/open_webui/retrieval/loaders/azure_mistral.py:67 | the stripped text is a contiguous part of the input with only whitespace before and after it |
| `Text.StripEmptyIff` | backend/open_webui/retrieval/loaders/azure_mistral.py:67-69 | the stripped text is empty exactly when the input is all whitespace (both directions) |
| `Text.StripIdempotent` | backend/open_webui/retrieval/loaders/azure_mistral.py:67-72 | stripping emitted content again changes nothing, so page content carries no surrounding whitespace |
| `Text.RStripChar` | backend/open_webui/retrieval/loaders/azure_mistral.py:36 | `rstrip('/')` keeps a prefix, drops only `'/'`, and leaves no trailing `'/'` |
| `Text.RStripCharIgnoresTrailing` | backend/open_webui/retrieval/loaders/azure_mistral.py:36 | endpoints that differ only in how many `'/'` they end with are normalised to the same endpoint, hence the same OCR URL |
| `Text.RStripCharIdempotent` | backend/open_webui/retrieval/loaders/azure_mistral.py:36 | normalising an already normalised endpoint changes nothing |
| `Text.RStripCharOnlyC` | backend/open_webui/retrieval/loaders/azure_mistral.py:30-36 | an endpoint made only of `'/'` passes the emptiness check yet is stored as the empty string |
| `PosixPath.Basename` | backend/open_webui/retrieval/loaders/azure_mistral.py:56 | the file name is the suffix of the path after its last `'/'`: it holds no `'/'` and is preceded by `'/'` unless it is the whole path |
| `PosixPath.BasenameOfJoin` | backend/open_webui/retrieval/loaders/azure_mistral.py:77 | the file name of `dir/name` is `name`, whatever the directory |
| `OcrResults.EmittedDocuments` | backend/open_webui/retrieval/loaders/azure_mistral.py:60-82 | at most one document per record |
| `OcrResults.PageDocumentForShape` | backend/open_webui/retrieval/loaders/azure_mistral.py:70-81 | the document of a kept record has the stripped markdown as content and the shape every page document has |
| `OcrResults.EmittedArePageDocuments` | backend/open_webui/retrieval/loaders/azure_mistral.py:60-82 | every emitted document has non-empty content with no surrounding whitespace, `content_length` equal to its length, `page_label = page + 1`, the shared `total_pages`, `file_name` and engine `"mistral-ocr-azure"`, and no `error` key |
| `OcrResults.EmittedStep` | backend/open_webui/retrieval/loaders/azure_mistral.py:62-82 | one more record adds its document at the end when it is usable, and nothing otherwise |
| `OcrResults.KeptIndicesExact` | backend/open_webui/retrieval/loaders/azure_mistral.py:62-69 | the kept positions are strictly increasing, each is a record with both keys and non-blank text, and no such record is missed |
| `OcrResults.EmittedFollowKept` | backend/open_webui/retrieval/loaders/azure_mistral.py:62-82 | the k-th emitted document is the document of the k-th kept record: content is its stripped markdown and `page` its index, so the output is an ordered subsequence of the input |
| `OcrResults.EmittedEmptyIff` | backend/open_webui/retrieval/loaders/azure_mistral.py:62-83 | nothing is emitted exactly when no record is usable (both directions) |
| `OcrResults.EmittedAllUsable` | backend/open_webui/retrieval/loaders/azure_mistral.py:62-82 | when every record is usable, document k comes from record k and there are as many documents as records |
| `OcrResults.ResultDocuments` | backend/open_webui/retrieval/loaders/azure_mistral.py:49-94 | the mapping never returns an empty list, and every document carries the loader's `file_name` |
| `OcrResults.ResultDocumentsCases` | backend/open_webui/retrieval/loaders/azure_mistral.py:50-94 | absent or empty `pages` gives exactly the `no_pages` placeholder; pages with none usable give exactly the `no_valid_pages` placeholder with `total_pages = len(pages)`; otherwise the emitted page documents |
| `OcrResults.SequentialPages` | backend/open_webui/retrieval/loaders/azure_mistral.py:60-82 | N pages with text and indices 0..N-1 give exactly N documents in index order, document k having `page = k`, `page_label = k + 1`, `total_pages = N` and the stripped text of page k |
| `OcrResults.LoadDocuments` | backend/open_webui/retrieval/loaders/azure_mistral.py:96-132 | `load` returns a non-empty list whatever the outcome of the chain, every document carrying the same `file_name` |
| `OcrResults.LoadErrorTags` | backend/open_webui/retrieval/loaders/azure_mistral.py:96-132 | the first document's `error` tag is `processing_failed`, `no_pages`, `no_valid_pages` or absent exactly in the failure, no-pages, nothing-usable and real-pages cases; a tagged document is always alone |
| `OcrResults.FailureReportsMessage` | backend/open_webui/retrieval/loaders/azure_mistral.py:122-132 | a failure gives one document whose content is `"Error during processing: "` followed by the message, tagged `processing_failed` with the file name |
| `AzureMistral.AzureMistralLoader.constructor` | backend/open_webui/retrieval/loaders/azure_mistral.py:35-47 | the fields are the arguments, except the endpoint, which is stored with its trailing `'/'` removed; the headers are built from the key |
| `AzureMistral.AzureMistralLoader.Create` | backend/open_webui/retrieval/loaders/azure_mistral.py:28-47 | construction is refused exactly when the key or endpoint is empty or the file is missing, with the key checked first and the endpoint second; on success every field holds its argument, the endpoint with its trailing `'/'` removed, and the OCR URL is that endpoint followed by `/providers/mistral/azure/ocr` |
| `AzureMistral.AzureMistralLoader.RequestShape` | backend/open_webui/retrieval/loaders/azure_mistral.py:101-114 | the POST goes to the endpoint followed by the OCR path with no doubled `'/'` at the join, with the bearer key, and the document URL is the PDF data-URL prefix followed by the encoded file |
| `AzureMistral.AzureMistralLoader.ProcessResults` | backend/open_webui/retrieval/loaders/azure_mistral.py:49-94 | the loop that skips and appends builds exactly `ResultDocuments` for the loader's file name |
| `AzureMistral.AzureMistralLoader.Load` | backend/open_webui/retrieval/loaders/azure_mistral.py:96-132 | `load` returns exactly `LoadDocuments` of the chain's outcome: a failed read or exchange gives the failure placeholder, a reply gives `_process_results` of it |

## Left out

- Logging and timing: the module-level `logging.basicConfig`, the log lines, and the `time.time()` elapsed seconds do not affect the returned value.
- File system: `os.path.exists` is the `fileExists` argument of `Create`; the file read is the `fileBytes` outcome of `Load`.
- Base64: `base64.b64encode` (section 4 of RFC 4648) is the `encode` argument of `Load`; only the data-URL prefix around its output is modelled.
- HTTP: `requests.post`, `raise_for_status` and `resp.json()` are the `post` argument of `Load`. Network errors, error statuses, timeouts and invalid JSON are all one `Failure` with the exception's message.
- Dynamic typing: the reply is typed, with an optional integer `index` and an optional string `markdown` per page. The `str(...)` coercion of non-string markdown is not modelled. Replies whose `pages` is some other falsy value are not modelled either. A reply or page record that is not a dictionary, or an index that does not support `+ 1`, raises inside the `try` in the source and ends as `processing_failed`. The model cannot express such replies.
- Metadata dictionaries are modelled as one datatype variant per key set; the key names appear as field names and the `error` values as `Metadata.ErrorTag`.
- `PosixPath.Basename` models POSIX paths only: on Windows `os.path.basename` is `ntpath.basename`, which also splits on `'\\'` and drive prefixes.
- Python strings may hold lone surrogate code points, which Dafny's `char` excludes.

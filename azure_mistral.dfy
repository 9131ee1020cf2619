/**
 * The `AzureMistralLoader` class: a loader configured once with credentials,
 * an endpoint and a file, whose `Load` turns the OCR service's reply for
 * that file into documents and never fails.
 *
 * The file read, the base64 encoder and the HTTP exchange (POST, status
 * check, JSON parsing) are passed in: the read as its outcome, the encoder
 * and the exchange as functions, so that the model fixes what is sent and
 * what is done with every possible answer.
 */
module AzureMistral {
  import opened Wrappers
  import opened Text
  import opened PosixPath
  import opened OcrResults

  const DefaultModel := "mistral-document-ai-2505"
  const DefaultTimeout := 300
  const OcrPath := "/providers/mistral/azure/ocr"
  const DataUrlPrefix := "data:application/pdf;base64,"
  const UserAgent := "OpenWebUI-AzureMistralLoader/1.0"

  type Byte = bv8

  /** Why construction was refused: `ValueError` twice, `FileNotFoundError` once. */
  datatype ConfigError = EmptyApiKey | EmptyEndpoint | FileNotFound(path: string)

  /** The JSON body of the OCR request. */
  datatype Payload = Payload(model: string, documentType: string, documentUrl: string, includeImageBase64: bool)

  /** Everything handed to the HTTP POST. */
  datatype OcrRequest = OcrRequest(url: string, headers: map<string, string>, payload: Payload, timeout: int)

  /** The fixed request headers, with the key as bearer token. */
  function Headers(apiKey: string): map<string, string>
  {
    map[
      "Authorization" := "Bearer " + apiKey,
      "Content-Type" := "application/json",
      "Accept" := "application/json",
      "User-Agent" := UserAgent
    ]
  }

  class AzureMistralLoader {
    const apiKey: string
    const endpoint: string
    const filePath: string
    const model: string
    const timeout: int
    const includeImageBase64: bool
    const headers: map<string, string>

    /**
     * A constructed loader: a non-empty key, an endpoint with no trailing
     * `'/'` (possibly empty), and the headers built from the key.
     */
    ghost predicate Valid()
    {
      && apiKey != []
      && (endpoint == [] || endpoint[|endpoint| - 1] != '/')
      && headers == Headers(apiKey)
    }

    /** Stores the configuration once the key and endpoint were found non-empty. */
    constructor (apiKey: string, endpoint: string, filePath: string,
                 model: string := DefaultModel, timeout: int := DefaultTimeout,
                 includeImageBase64: bool := false)
      requires apiKey != [] && endpoint != []
      ensures Valid()
      ensures this.apiKey == apiKey && this.endpoint == RStripChar(endpoint, '/')
      ensures this.filePath == filePath && this.model == model
      ensures this.timeout == timeout && this.includeImageBase64 == includeImageBase64
    {
      this.apiKey := apiKey;
      this.endpoint := RStripChar(endpoint, '/');
      this.filePath := filePath;
      this.model := model;
      this.timeout := timeout;
      this.includeImageBase64 := includeImageBase64;
      this.headers := Headers(apiKey);
    }

    /**
     * `__init__` with its checks: the key, then the endpoint, then the file's
     * existence, each refusing construction before anything is stored.
     */
    static method Create(apiKey: string, endpoint: string, filePath: string, fileExists: bool,
                         model: string := DefaultModel, timeout: int := DefaultTimeout,
                         includeImageBase64: bool := false)
      returns (r: Result<AzureMistralLoader, ConfigError>)
      ensures r.Failure? <==> apiKey == [] || endpoint == [] || !fileExists
      ensures apiKey == [] ==> r == Failure(EmptyApiKey)
      ensures apiKey != [] && endpoint == [] ==> r == Failure(EmptyEndpoint)
      ensures apiKey != [] && endpoint != [] && !fileExists ==> r == Failure(FileNotFound(filePath))
      ensures r.Success? ==>
                fresh(r.value) && r.value.Valid()
                && r.value.apiKey == apiKey && r.value.filePath == filePath
                && r.value.endpoint == RStripChar(endpoint, '/')
                && r.value.model == model && r.value.timeout == timeout
                && r.value.includeImageBase64 == includeImageBase64
                && r.value.OcrUrl() == RStripChar(endpoint, '/') + OcrPath
    {
      if apiKey == [] {
        return Failure(EmptyApiKey);
      }
      if endpoint == [] {
        return Failure(EmptyEndpoint);
      }
      if !fileExists {
        return Failure(FileNotFound(filePath));
      }
      var loader := new AzureMistralLoader(apiKey, endpoint, filePath, model, timeout, includeImageBase64);
      return Success(loader);
    }

    /** `os.path.basename(self.file_path)`, carried by every document. */
    function FileName(): string
    {
      Basename(filePath)
    }

    function OcrUrl(): string
    {
      endpoint + OcrPath
    }

    /** The request sent for a file whose base64 text is `encoded`. */
    function Request(encoded: string): OcrRequest
    {
      OcrRequest(OcrUrl(), headers,
                 Payload(model, "document_url", DataUrlPrefix + encoded, includeImageBase64),
                 timeout)
    }

    /**
     * The request targets the OCR path right after the endpoint, with no
     * doubled `'/'` at the join, carries the bearer key, and embeds the
     * encoded file after the PDF data-URL prefix.
     */
    lemma RequestShape(encoded: string)
      requires Valid()
      ensures var q := Request(encoded);
        && q.url[..|endpoint|] == endpoint
        && q.url[|endpoint|..] == OcrPath
        && (endpoint == [] || q.url[|endpoint| - 1..|endpoint| + 1] != "//")
        && q.headers["Authorization"] == "Bearer " + apiKey
        && q.payload.documentUrl[..|DataUrlPrefix|] == DataUrlPrefix
        && q.payload.documentUrl[|DataUrlPrefix|..] == encoded
    {
    }

    /**
     * The outcome of the read/encode/POST/parse chain: a failed read stops
     * the chain; otherwise the exchange's answer for the request built from
     * the encoded bytes.
     */
    function Exchange(fileBytes: Result<seq<Byte>, string>, encode: seq<Byte> -> string,
                      post: OcrRequest -> Result<OcrResponse, string>): Result<OcrResponse, string>
    {
      match fileBytes
      case Failure(message) => Failure(message)
      case Success(bytes) => post(Request(encode(bytes)))
    }

    /** `_process_results`: filters and maps the reply's pages in one pass. */
    method ProcessResults(response: OcrResponse) returns (docs: seq<Document>)
      ensures docs == ResultDocuments(FileName(), response)
    {
      var fileName := Basename(filePath);
      if response.pages.None? || response.pages.value == [] {
        return [Document(NoTextContent, NoPagesMetadata(fileName))];
      }
      var pages := response.pages.value;
      var documents: seq<Document> := [];
      var totalPages := |pages|;
      for i := 0 to |pages|
        invariant documents == EmittedDocuments(pages[..i], totalPages, fileName)
      {
        var page := pages[i];
        EmittedStep(pages, i, totalPages, fileName);
        if page.markdown.None? || page.index.None? {
          continue;
        }
        var cleaned := Strip(page.markdown.value);
        StripEmptyIff(page.markdown.value);
        if cleaned == [] {
          continue;
        }
        documents := documents + [PageDocument(page.index.value, cleaned, totalPages, fileName)];
      }
      assert pages[..|pages|] == pages;
      if documents == [] {
        return [Document(NoValidTextContent, NoValidPagesMetadata(totalPages, fileName))];
      }
      return documents;
    }

    /**
     * `load`: runs the chain and maps its outcome to documents; every
     * failure becomes the `processing_failed` placeholder.
     */
    method Load(fileBytes: Result<seq<Byte>, string>, encode: seq<Byte> -> string,
                post: OcrRequest -> Result<OcrResponse, string>) returns (docs: seq<Document>)
      ensures docs == LoadDocuments(FileName(), Exchange(fileBytes, encode, post))
    {
      match Exchange(fileBytes, encode, post)
      case Failure(message) =>
        docs := [FailedDocument(FileName(), message)];
      case Success(response) =>
        docs := ProcessResults(response);
    }
  }
}

/** worker.py: the upload rules (extension check, target path, artifact
    names from the upload's stem), `extract_text`'s page normalisation, and
    `background_process`, which runs extraction, retrieval and generation
    in that order and swallows any exception. */
module Worker {
  import opened Outcomes
  import opened PyStr
  import opened JsonData
  import opened Chunker
  import opened Retrieve
  import opened RagLlm

  const UploadDir: string := "input"
  const OcrDir: string := "ocr"
  const RetDir: string := "retrieval"
  const OutDir: string := "output"

  const InvalidPdfMessage: string := "Insert valid PDF file"
  const SaveErrorMessage: string := "Internal file save error"

  // ---------------------------------------------------------------------
  // Path rules
  // ---------------------------------------------------------------------

  predicate AllDots(s: string)
  {
    forall k :: 0 <= k < |s| ==> s[k] == '.'
  }

  /** `os.path.splitext` on a POSIX path: the extension starts at the last
      dot of the last path component, unless everything before that dot in
      the component is dots. */
  function SplitExt(p: string): (r: (string, string))
    ensures r.0 + r.1 == p
  {
    var sepIndex := RFind(p, '/');
    var dotIndex := RFind(p, '.');
    if dotIndex > sepIndex && !AllDots(p[sepIndex + 1..dotIndex]) then (p[..dotIndex], p[dotIndex..])
    else (p, "")
  }

  /** `data_validation`'s test: `os.path.splitext(filename)[1].lower() == ".pdf"`. */
  function IsPdfName(filename: string): (r: bool)
  {
    var ext := SplitExt(filename).1;
    assert filename[|filename| - |ext|..] == ext;
    LowerAscii(ext) == ".pdf"
  }

  lemma LowerCharDot(c: char)
    ensures LowerChar(c) == '.' ==> c == '.'
    ensures LowerChar(c) == 'p' || LowerChar(c) == 'd' || LowerChar(c) == 'f' ==> c != '.' && c != '/'
  {
  }

  /** The last occurrence of `c` in `s` is at `i` when `s[i]` is `c` and no
      later character is. */
  lemma RFindAt(s: string, c: char, i: int)
    requires 0 <= i < |s| && s[i] == c
    requires forall k :: i < k < |s| ==> s[k] != c
    ensures RFind(s, c) == i
  {
  }

  /** No occurrence of `c` from `i` on puts its last occurrence before `i`. */
  lemma RFindBefore(s: string, c: char, i: int)
    requires 0 <= i <= |s|
    requires forall k :: i <= k < |s| ==> s[k] != c
    ensures RFind(s, c) < i
  {
  }

  /** The name ends in `.pdf` in any case. */
  predicate PdfSuffix(p: string)
  {
    |p| >= 4 && LowerAscii(p[|p| - 4..]) == ".pdf"
  }

  /** The last path component has something other than dots before the
      last four characters. */
  ghost predicate NamedBeforeSuffix(p: string)
  {
    exists k :: RFind(p, '/') < k < |p| - 4 && p[k] != '.'
  }

  /** A `.pdf` suffix in any case is a dot and three characters that are
      neither dots nor slashes. */
  lemma PdfSuffixChars(p: string)
    requires PdfSuffix(p)
    ensures p[|p| - 4] == '.'
    ensures forall m :: |p| - 4 < m < |p| ==> p[m] != '.' && p[m] != '/'
  {
    var d0 := |p| - 4;
    var ext := p[d0..];
    var lowered := LowerAscii(ext);
    assert lowered[0] == '.' && lowered[1] == 'p' && lowered[2] == 'd' && lowered[3] == 'f';
    LowerCharDot(ext[0]);
    LowerCharDot(ext[1]);
    LowerCharDot(ext[2]);
    LowerCharDot(ext[3]);
    assert forall m :: d0 < m < |p| ==> p[m] == ext[m - d0];
  }

  /** In a name with a `.pdf` suffix in any case, the last dot is the
      suffix's and the last slash comes before it. */
  lemma PdfSuffixDots(p: string)
    requires PdfSuffix(p)
    ensures RFind(p, '.') == |p| - 4
    ensures RFind(p, '/') < |p| - 4
  {
    PdfSuffixChars(p);
    RFindAt(p, '.', |p| - 4);
    RFindBefore(p, '/', |p| - 4);
  }

  /** A non-empty extension starts at the last dot, after the last slash,
      with something other than dots before it in the last component. */
  lemma SplitExtFound(p: string)
    requires SplitExt(p).1 != ""
    ensures RFind(p, '.') > RFind(p, '/')
    ensures !AllDots(p[RFind(p, '/') + 1..RFind(p, '.')])
    ensures SplitExt(p).1 == p[RFind(p, '.')..]
  {
  }

  /** An extension that lowers to `.pdf` is the last four characters. */
  lemma PdfExtAtEnd(p: string)
    requires IsPdfName(p)
    ensures SplitExt(p).1 == p[|p| - 4..]
    ensures RFind(p, '.') == |p| - 4 && RFind(p, '/') < |p| - 4
    ensures !AllDots(p[RFind(p, '/') + 1..|p| - 4])
  {
    assert |LowerAscii(SplitExt(p).1)| == 4;
    SplitExtFound(p);
  }

  lemma NotAllDots(p: string, a: int, b: int)
    requires 0 <= a <= b <= |p| && !AllDots(p[a..b])
    ensures exists k :: a <= k < b && p[k] != '.'
  {
    var k' :| 0 <= k' < b - a && p[a..b][k'] != '.';
    assert p[a + k'] == p[a..b][k'];
  }

  lemma PdfNameOnly(p: string)
    requires IsPdfName(p)
    ensures PdfSuffix(p) && NamedBeforeSuffix(p)
  {
    PdfExtAtEnd(p);
    NotAllDots(p, RFind(p, '/') + 1, |p| - 4);
  }

  lemma PdfNameIf(p: string)
    requires PdfSuffix(p) && NamedBeforeSuffix(p)
    ensures IsPdfName(p)
  {
    var s := RFind(p, '/');
    var d0 := |p| - 4;
    var k :| s < k < d0 && p[k] != '.';
    PdfSuffixDots(p);
    assert p[s + 1..d0][k - s - 1] != '.';
  }

  /** The extension test, stated without `splitext`: the name ends in
      `.pdf` in any case, and the last path component has something other
      than dots before that suffix. */
  lemma PdfNameIff(p: string)
    ensures IsPdfName(p) <==> PdfSuffix(p) && NamedBeforeSuffix(p)
  {
    if IsPdfName(p) {
      PdfNameOnly(p);
    }
    if PdfSuffix(p) && NamedBeforeSuffix(p) {
      PdfNameIf(p);
    }
  }

  /** The check ignores case: `report.PDF` is accepted. */
  lemma UpperCaseAccepted()
    ensures IsPdfName("report.PDF")
  {
    var p := "report.PDF";
    assert LowerAscii(p[6..]) == ".pdf" by {
      assert p[6..] == ".PDF";
    }
    RFindBefore(p, '/', 0);
    assert p[0] != '.';
    PdfNameIf(p);
  }

  /** A hidden file named `.pdf` has no extension, and neither suffix of
      `report.pdf.txt` is tested but the last. */
  lemma NonPdfRejected()
    ensures !IsPdfName(".pdf")
    ensures !IsPdfName("report.pdf.txt")
  {
    PdfNameIff(".pdf");
    PdfNameIff("report.pdf.txt");
    var q := "report.pdf.txt";
    assert LowerAscii(q[10..]) != ".pdf" by {
      assert q[10..] == ".txt";
    }
  }

  /** `str(Path(dir) / name)`: an absolute name replaces the directory. */
  function JoinPath(dir: string, name: string): (r: string)
  {
    if name == "" then dir
    else if name[0] == '/' then name
    else dir + "/" + name
  }

  /** `Path(p).name`: the last path component. */
  function BaseName(p: string): (r: string)
  {
    p[RFind(p, '/') + 1..]
  }

  /** `Path(p).stem`: the name without its suffix, where a suffix is a last
      dot that neither starts nor ends the name. */
  function Stem(p: string): (r: string)
  {
    var name := BaseName(p);
    var i := RFind(name, '.');
    if 0 < i < |name| - 1 then name[..i] else name
  }

  /** `str(Path(dir) / f"{stem}.json")`. */
  function ArtifactPath(dir: string, stem: string): string
  {
    dir + "/" + stem + ".json"
  }

  /** Joining never loses the name: it ends the result, either on its own
      (an absolute name) or after the directory and one slash. */
  lemma JoinPathShape(dir: string, name: string)
    requires name != ""
    ensures var r := JoinPath(dir, name);
            |name| <= |r| && r[|r| - |name|..] == name
            && (name[0] == '/' ==> r == name)
            && (name[0] != '/' ==> |r| == |dir| + 1 + |name| && r[..|dir|] == dir && r[|dir|] == '/')
  {
  }

  /** The last component is the slash-free tail of the path that follows
      its last slash. */
  lemma BaseNameShape(p: string)
    ensures var r := BaseName(p);
            |r| <= |p| && p[|p| - |r|..] == r
            && (forall k :: 0 <= k < |r| ==> r[k] != '/')
            && (|r| < |p| ==> p[|p| - |r| - 1] == '/')
  {
  }

  /** The stem is a prefix of the last component. When it is shorter, a dot
      follows it, that dot is the last one, and it neither starts nor ends
      the component. */
  lemma StemShape(p: string)
    ensures var name, r := BaseName(p), Stem(p);
            |r| <= |name| && name[..|r|] == r
            && (|r| < |name| ==> 0 < |r| < |name| - 1 && name[|r|] == '.'
                                 && forall k :: |r| < k < |name| ==> name[k] != '.')
  {
  }

  lemma RFindAppend(a: string, b: string, c: char)
    ensures RFind(a + b, c) == if RFind(b, c) >= 0 then |a| + RFind(b, c) else RFind(a, c)
  {
    var r := RFind(a + b, c);
    if RFind(b, c) >= 0 {
      assert (a + b)[|a| + RFind(b, c)] == c;
      forall k | |a| + RFind(b, c) < k < |a + b|
        ensures (a + b)[k] != c
      {
        assert (a + b)[k] == b[k - |a|];
      }
      RFindAt(a + b, c, |a| + RFind(b, c));
    } else {
      forall k | |a| <= k < |a + b|
        ensures (a + b)[k] != c
      {
        assert (a + b)[k] == b[k - |a|];
      }
      RFindBefore(a + b, c, |a|);
      if RFind(a, c) >= 0 {
        assert (a + b)[RFind(a, c)] == c;
        forall k | RFind(a, c) < k < |a + b|
          ensures (a + b)[k] != c
        {
          if k < |a| {
            assert (a + b)[k] == a[k];
          }
        }
        RFindAt(a + b, c, RFind(a, c));
      } else {
        forall k | 0 <= k < |a + b|
          ensures (a + b)[k] != c
        {
          if k < |a| {
            assert (a + b)[k] == a[k];
          }
        }
        RFindBefore(a + b, c, 0);
      }
    }
  }

  /** `input/` followed by a relative name ends with that name's last
      component. */
  lemma JoinedBaseName(filename: string)
    requires filename != ""
    ensures BaseName(JoinPath(UploadDir, filename)) == BaseName(filename)
  {
    if filename[0] != '/' {
      var dir := UploadDir + "/";
      RFindAppend(dir, filename, '/');
      RFindAt(dir, '/', 5);
      var s := RFind(filename, '/');
      assert JoinPath(UploadDir, filename) == dir + filename;
      assert (dir + filename)[|dir| + s + 1..] == filename[s + 1..];
    }
  }

  /** A last component with a `.pdf` suffix and something before it has
      the part before the suffix as its stem. */
  lemma StemOfPdfName(p: string)
    requires PdfSuffix(BaseName(p)) && |BaseName(p)| > 4
    ensures Stem(p) == BaseName(p)[..|BaseName(p)| - 4]
  {
    PdfSuffixDots(BaseName(p));
  }

  /** The last component of an accepted name is longer than its suffix and
      ends with it. */
  lemma AcceptedBaseName(filename: string)
    requires IsPdfName(filename)
    ensures PdfSuffix(BaseName(filename)) && |BaseName(filename)| > 4
  {
    PdfNameOnly(filename);
    var s := RFind(filename, '/');
    var k :| s < k < |filename| - 4 && filename[k] != '.';
    var name := BaseName(filename);
    assert name[|name| - 4..] == filename[|filename| - 4..];
  }

  /** An accepted upload saved under `input/` keeps its file name, and its
      stem is that name without the four-character `.pdf` suffix. */
  lemma AcceptedStem(filename: string)
    requires IsPdfName(filename)
    ensures BaseName(JoinPath(UploadDir, filename)) == BaseName(filename)
    ensures |BaseName(filename)| > 4
    ensures Stem(JoinPath(UploadDir, filename)) == BaseName(filename)[..|BaseName(filename)| - 4]
  {
    AcceptedBaseName(filename);
    JoinedBaseName(filename);
    StemOfPdfName(JoinPath(UploadDir, filename));
  }

  /** The three artifact directories never share a path, whatever the
      stems. */
  lemma ArtifactDirsDisjoint(s1: string, s2: string)
    ensures ArtifactPath(OcrDir, s1) != ArtifactPath(RetDir, s2)
    ensures ArtifactPath(OcrDir, s1) != ArtifactPath(OutDir, s2)
    ensures ArtifactPath(RetDir, s1) != ArtifactPath(OutDir, s2)
  {
    assert ArtifactPath(OcrDir, s1)[0] == 'o' && ArtifactPath(RetDir, s2)[0] == 'r';
    assert ArtifactPath(OcrDir, s1)[1] == 'c' && ArtifactPath(OutDir, s2)[1] == 'u';
    assert ArtifactPath(RetDir, s1)[0] == 'r' && ArtifactPath(OutDir, s2)[0] == 'o';
  }

  /** Within a directory, artifact paths are equal exactly when the stems
      are: two uploads with the same stem share their artifacts. */
  lemma ArtifactPathIff(dir: string, s1: string, s2: string)
    ensures ArtifactPath(dir, s1) == ArtifactPath(dir, s2) <==> s1 == s2
  {
    if ArtifactPath(dir, s1) == ArtifactPath(dir, s2) {
      var n := |dir| + 1;
      assert s1 == ArtifactPath(dir, s1)[n..n + |s1|];
      assert s2 == ArtifactPath(dir, s2)[n..n + |s2|];
    }
  }

  // ---------------------------------------------------------------------
  // data_validation and the upload route
  // ---------------------------------------------------------------------

  /** What `data_validation` returns: `(path, None)` or `(None, message)`. */
  datatype Validation = Accepted(path: string) | Rejected(message: string)

  /** `data_validation(file)`. `saved` is whether opening the target path
      and copying the upload into it succeeds; a missing file name makes
      `splitext` raise. */
  function Validate(filename: Option<string>, saved: bool): Validation
  {
    if filename.None? then Rejected(SaveErrorMessage)
    else if !IsPdfName(filename.value) then Rejected(InvalidPdfMessage)
    else if !saved then Rejected(SaveErrorMessage)
    else Accepted(JoinPath(UploadDir, filename.value))
  }

  /** The files after `data_validation`: the upload is stored only when it
      is accepted. */
  function ValidationFiles(files: map<string, FileContent>, filename: Option<string>, content: seq<byte>,
                           saved: bool): map<string, FileContent>
  {
    match Validate(filename, saved)
    case Accepted(path) => files[path := Bytes(content)]
    case Rejected(_) => files
  }

  method DataValidation(store: ArtifactStore, filename: Option<string>, content: seq<byte>, saved: bool)
    returns (pdfPath: Option<string>, error: Option<string>)
    modifies store
    ensures Validate(filename, saved).Accepted? ==> pdfPath == Some(Validate(filename, saved).path) && error == None
    ensures Validate(filename, saved).Rejected? ==> pdfPath == None && error == Some(Validate(filename, saved).message)
    ensures store.files == ValidationFiles(old(store.files), filename, content, saved)
  {
    if filename.None? {
      return None, Some(SaveErrorMessage);
    }
    var ext := LowerAscii(SplitExt(filename.value).1);
    if ext != ".pdf" {
      return None, Some(InvalidPdfMessage);
    }
    var filePath := JoinPath(UploadDir, filename.value);
    if !saved {
      return None, Some(SaveErrorMessage);
    }
    store.Write(filePath, Bytes(content));
    return Some(filePath), None;
  }

  /** A name without a `.pdf` extension gets exactly "Insert valid PDF
      file", and nothing is stored. */
  lemma RejectedName(files: map<string, FileContent>, filename: string, content: seq<byte>, saved: bool)
    requires !IsPdfName(filename)
    ensures Validate(Some(filename), saved) == Rejected(InvalidPdfMessage)
    ensures ValidationFiles(files, Some(filename), content, saved) == files
  {
  }

  /** A saved `.pdf` upload with a relative name is stored, and reported,
      as `input/<filename>`. */
  lemma AcceptedName(files: map<string, FileContent>, filename: string, content: seq<byte>)
    requires IsPdfName(filename) && filename != "" && filename[0] != '/'
    ensures Validate(Some(filename), true) == Accepted("input/" + filename)
    ensures ValidationFiles(files, Some(filename), content, true) == files["input/" + filename := Bytes(content)]
  {
    assert JoinPath(UploadDir, filename) == "input/" + filename;
  }

  /** The arguments `upload_pdf` hands to the background process. */
  datatype Job = Job(pdfPath: string, ocrFile: string, retFile: string, llmFile: string, query: string)

  function ErrorResponse(message: string): Json
  {
    JObj(map["status" := JStr("error"), "message" := JStr(message)])
  }

  function QueuedResponse(ocrFile: string): Json
  {
    JObj(map["status" := JStr("queued"), "message" := JStr("Your file is being processed"),
             "ocr_json" := JStr(ocrFile)])
  }

  /** The background job for a saved upload: its three artifacts share the
      upload's stem. */
  function JobFor(pdfPath: string, query: string): Job
  {
    var stem := Stem(pdfPath);
    Job(pdfPath, ArtifactPath(OcrDir, stem), ArtifactPath(RetDir, stem), ArtifactPath(OutDir, stem), query)
  }

  /** `upload_pdf`'s response, and the job it starts, if any. */
  function Upload(v: Validation, query: string): (Json, Option<Job>)
  {
    match v
    case Rejected(message) => (ErrorResponse(message), None)
    case Accepted(path) => (QueuedResponse(JobFor(path, query).ocrFile), Some(JobFor(path, query)))
  }

  /** `upload_pdf`: validate and save, then either report the error or
      start the background job and report where its OCR output will be. */
  method UploadPdf(store: ArtifactStore, filename: Option<string>, content: seq<byte>, saved: bool, query: string)
    returns (response: Json, job: Option<Job>)
    modifies store
    ensures (response, job) == Upload(Validate(filename, saved), query)
    ensures store.files == ValidationFiles(old(store.files), filename, content, saved)
  {
    var pdfPath, error := DataValidation(store, filename, content, saved);
    if error.Some? {
      return ErrorResponse(error.value), None;
    }
    var stem := Stem(pdfPath.value);
    var ocrFile := ArtifactPath(OcrDir, stem);
    var retFile := ArtifactPath(RetDir, stem);
    var llmFile := ArtifactPath(OutDir, stem);
    return QueuedResponse(ocrFile), Some(Job(pdfPath.value, ocrFile, retFile, llmFile, query));
  }

  /** A rejected upload gets an error response carrying the message, and
      starts nothing. */
  lemma UploadRejected(filename: Option<string>, saved: bool, query: string)
    requires Validate(filename, saved).Rejected?
    ensures Upload(Validate(filename, saved), query) == (ErrorResponse(Validate(filename, saved).message), None)
  {
  }

  /** An accepted upload is queued, and its response names the job's OCR
      path. */
  lemma UploadQueued(filename: string, query: string)
    requires IsPdfName(filename)
    ensures var (response, job) := Upload(Validate(Some(filename), true), query);
            job == Some(JobFor(JoinPath(UploadDir, filename), query))
            && response.fields["status"] == JStr("queued")
            && response.fields["ocr_json"] == JStr(job.value.ocrFile)
  {
  }

  /** The job of an accepted upload keeps its artifacts under `ocr/`,
      `retrieval/` and `output/`, each named after the upload's file name
      without `.pdf`. */
  lemma QueuedArtifacts(filename: string, query: string)
    requires IsPdfName(filename)
    ensures var job := JobFor(JoinPath(UploadDir, filename), query);
            var name := BaseName(filename);
            var stem := name[..|name| - 4];
            job.ocrFile == "ocr/" + stem + ".json"
            && job.retFile == "retrieval/" + stem + ".json"
            && job.llmFile == "output/" + stem + ".json"
  {
    AcceptedStem(filename);
    var stem := Stem(JoinPath(UploadDir, filename));
    assert JobFor(JoinPath(UploadDir, filename), query).ocrFile == ArtifactPath(OcrDir, stem);
  }

  /** A job's three artifacts are distinct paths. */
  lemma JobArtifactsDistinct(pdfPath: string, query: string)
    ensures var job := JobFor(pdfPath, query);
            job.ocrFile != job.retFile && job.ocrFile != job.llmFile && job.retFile != job.llmFile
  {
    ArtifactDirsDisjoint(Stem(pdfPath), Stem(pdfPath));
  }

  // ---------------------------------------------------------------------
  // extract_text
  // ---------------------------------------------------------------------

  /** A page as pdfplumber reads it: `page.page_number` and
      `page.extract_text()`, which may be `None`. */
  datatype RawPage = RawPage(number: int, text: Option<string>)

  /** `page_text.replace("\n", " ").strip()`. */
  function Normalize(text: string): (r: string)
  {
    Strip(ReplaceChar(text, '\n', ' '))
  }

  /** A normalised text has no newline and no surrounding whitespace. */
  lemma NormalizeNoNewline(text: string)
    ensures '\n' !in Normalize(text)
  {
    var replaced := ReplaceChar(text, '\n', ' ');
    StripSlice(replaced);
    var a := LeadingSpace(replaced);
    var r := Normalize(text);
    forall m | 0 <= m < |r|
      ensures r[m] != '\n'
    {
      assert r[m] == replaced[a + m];
    }
  }

  lemma NormalizeStripped(text: string)
    ensures Strip(Normalize(text)) == Normalize(text)
  {
    StripIdempotent(ReplaceChar(text, '\n', ' '));
  }

  /** `{"page": page.page_number, "para": ...}` with `extract_text() or ""`. */
  function PageRecord(page: RawPage): (r: Json)
    ensures IsPageEntry(r) && PageNumber(r) == JNum(page.number)
  {
    var raw := if page.text.Some? then page.text.value else "";
    JObj(map["page" := JNum(page.number), "para" := JStr(Normalize(raw))])
  }

  /** What `extract_text` returns. `pdf` is the document's pages, or `None`
      when pdfplumber raises at any point, in which case the partial list is
      dropped for `[]`. */
  function ExtractPages(pdf: Option<seq<RawPage>>): seq<Json>
  {
    match pdf
    case None => []
    case Some(pages) => seq(|pages|, i requires 0 <= i < |pages| => PageRecord(pages[i]))
  }

  method ExtractText(pdf: Option<seq<RawPage>>) returns (results: seq<Json>)
    ensures results == ExtractPages(pdf)
  {
    if pdf.None? {
      return [];
    }
    var pages := pdf.value;
    results := [];
    for i := 0 to |pages|
      invariant |results| == i
      invariant forall j :: 0 <= j < i ==> results[j] == PageRecord(pages[j])
    {
      results := results + [PageRecord(pages[i])];
    }
  }

  /** One record per page, in page order, each carrying its page's number
      and a text with no newline and no surrounding whitespace; every
      record is a page entry `chunk_text` accepts. */
  lemma ExtractedRecords(pdf: Option<seq<RawPage>>)
    ensures pdf.None? ==> ExtractPages(pdf) == []
    ensures pdf.Some? ==> |ExtractPages(pdf)| == |pdf.value|
    ensures pdf.Some? ==> forall i :: 0 <= i < |pdf.value| ==>
              (IsPageEntry(ExtractPages(pdf)[i])
               && PageNumber(ExtractPages(pdf)[i]) == JNum(pdf.value[i].number)
               && '\n' !in PageText(ExtractPages(pdf)[i])
               && Strip(PageText(ExtractPages(pdf)[i])) == PageText(ExtractPages(pdf)[i]))
  {
    if pdf.Some? {
      forall i | 0 <= i < |pdf.value|
        ensures '\n' !in PageText(ExtractPages(pdf)[i])
        ensures Strip(PageText(ExtractPages(pdf)[i])) == PageText(ExtractPages(pdf)[i])
      {
        var page := pdf.value[i];
        var raw := if page.text.Some? then page.text.value else "";
        NormalizeNoNewline(raw);
        NormalizeStripped(raw);
      }
    }
  }

  // ---------------------------------------------------------------------
  // background_process
  // ---------------------------------------------------------------------

  /** The document `background_process` writes to the OCR path. */
  function OcrDocument(query: string, pages: seq<Json>): Json
  {
    JObj(map["query" := JStr(query), "pages" := JArr(pages)])
  }

  /** Which stages ran and how they ended: the retrieval stage's result,
      and the generation stage's outcome if it ran. */
  datatype PipelineRun = PipelineRun(retrieval: Result<seq<Chunk>>, generation: Option<AnswerOutcome>)

  datatype Background = Background(run: PipelineRun, files: map<string, FileContent>)

  /** `background_process(pdf_path, ocr_file, ret_file, llm_file, query)`:
      extract and save the OCR document, run retrieval on it, and run
      generation on the retrieval document only when retrieval returned;
      an exception from retrieval ends the process quietly. */
  function BackgroundSpec(files: map<string, FileContent>, ocrFile: string, retFile: string, llmFile: string,
                          query: string, pdf: Option<seq<RawPage>>,
                          search: (Json, seq<Chunk>, int) -> Option<seq<int>>,
                          chain: (Json, seq<Json>) -> Option<map<string, Json>>): Background
  {
    var afterOcr := files[ocrFile := JsonText(OcrDocument(query, ExtractPages(pdf)))];
    var afterRet := RagPipelineFiles(afterOcr, ocrFile, retFile, DefaultK, search);
    match RagPipeline(afterOcr, ocrFile, DefaultK, search)
    case Err(e) => Background(PipelineRun(Err(e), None), afterRet)
    case Ok(r) =>
      Background(PipelineRun(Ok(r.retrieved), Some(Answer(LoadJsonFile(afterRet, retFile), chain))),
                 AnswerFiles(afterRet, retFile, llmFile, chain))
  }

  /** `background_process`, stage by stage. The PDF's pages are a
      parameter; creating the directories is left out. */
  method BackgroundProcess(store: ArtifactStore, ocrFile: string, retFile: string, llmFile: string,
                           query: string, pdf: Option<seq<RawPage>>,
                           search: (Json, seq<Chunk>, int) -> Option<seq<int>>,
                           chain: (Json, seq<Json>) -> Option<map<string, Json>>)
    returns (run: PipelineRun)
    modifies store
    ensures run == BackgroundSpec(old(store.files), ocrFile, retFile, llmFile, query, pdf, search, chain).run
    ensures store.files == BackgroundSpec(old(store.files), ocrFile, retFile, llmFile, query, pdf, search, chain).files
  {
    var pagesData := ExtractText(pdf);
    var resultJson := OcrDocument(query, pagesData);
    store.Write(ocrFile, JsonText(resultJson));
    var retrieved := ProcessRagPipeline(store, ocrFile, retFile, DefaultK, search);
    if retrieved.Err? {
      return PipelineRun(retrieved, None);
    }
    var outcome := RunTeam3Rag(store, retFile, llmFile, chain);
    return PipelineRun(retrieved, Some(outcome));
  }

  /** Retrieval reads back exactly the pages and query extraction saved. */
  lemma OcrReadBack(files: map<string, FileContent>, ocrFile: string, query: string, pages: seq<Json>)
    ensures LoadOcr(files[ocrFile := JsonText(OcrDocument(query, pages))], ocrFile) == Ok((JArr(pages), JStr(query)))
  {
  }

  /** Extracted pages always chunk with the defaults. */
  lemma ExtractedChunkable(pdf: Option<seq<RawPage>>, maxLen: int)
    ensures TextChunks(JArr(ExtractPages(pdf)), maxLen, None).Ok?
  {
    ExtractedRecords(pdf);
    DefaultsNeverFail(JArr(ExtractPages(pdf)), maxLen);
  }

  /** Generation runs exactly when retrieval returned, and retrieval over
      the process's own OCR document can only fail in the search
      capability or on an index the search returned. */
  lemma StageOrder(files: map<string, FileContent>, ocrFile: string, retFile: string, llmFile: string,
                   query: string, pdf: Option<seq<RawPage>>,
                   search: (Json, seq<Chunk>, int) -> Option<seq<int>>,
                   chain: (Json, seq<Json>) -> Option<map<string, Json>>)
    ensures var run := BackgroundSpec(files, ocrFile, retFile, llmFile, query, pdf, search, chain).run;
            (run.generation.Some? <==> run.retrieval.Ok?)
            && (run.retrieval.Err? ==> run.retrieval.error == CapabilityFailure
                                       || run.retrieval.error == IndexOutOfRange)
  {
    var afterOcr := files[ocrFile := JsonText(OcrDocument(query, ExtractPages(pdf)))];
    OcrReadBack(files, ocrFile, query, ExtractPages(pdf));
    ExtractedChunkable(pdf, DefaultMaxLen);
  }

  /** The `text` of each retrieved chunk, in order. */
  function Texts(retrieved: seq<Chunk>): seq<Json>
  {
    seq(|retrieved|, i requires 0 <= i < |retrieved| => JStr(retrieved[i].text))
  }

  /** Generation reads the retrieval document back: its passages are the
      retrieved chunks' texts in order. */
  lemma RetrievedPassages(query: Json, retrieved: seq<Chunk>)
    ensures var f := RetrievedJson(Retrieval(query, retrieved)).fields;
            Passages(Get(f, "retrieved_chunks", JArr([]))) == Ok(Texts(retrieved))
  {
    var items := seq(|retrieved|, i requires 0 <= i < |retrieved| => ChunkJson(retrieved[i]));
    assert RetrievedJson(Retrieval(query, retrieved)).fields["retrieved_chunks"] == JArr(items);
    var r := TextFields(items);
    assert r.Ok?;
    assert r.value == Texts(retrieved);
  }

  /** From upload query to answer: once retrieval has returned, an empty
      query writes no answer, and otherwise the chain is asked the query
      over the retrieved chunks' texts and its `result` is what gets
      saved. */
  lemma EndToEnd(files: map<string, FileContent>, ocrFile: string, retFile: string, llmFile: string,
                 query: string, pdf: Option<seq<RawPage>>,
                 search: (Json, seq<Chunk>, int) -> Option<seq<int>>,
                 chain: (Json, seq<Json>) -> Option<map<string, Json>>)
    requires BackgroundSpec(files, ocrFile, retFile, llmFile, query, pdf, search, chain).run.retrieval.Ok?
    ensures var run := BackgroundSpec(files, ocrFile, retFile, llmFile, query, pdf, search, chain).run;
            var rs := run.retrieval.value;
            run.generation
            == Some(if query == "" then NoQuery
                    else match chain(JStr(query), Texts(rs))
                         case None => Failed(CapabilityFailure)
                         case Some(response) => Answered(JObj(map["result" := Get(response, "result", JStr(""))])))
  {
    var afterOcr := files[ocrFile := JsonText(OcrDocument(query, ExtractPages(pdf)))];
    OcrReadBack(files, ocrFile, query, ExtractPages(pdf));
    var r := RagPipeline(afterOcr, ocrFile, DefaultK, search).value;
    assert r.query == JStr(query);
    var afterRet := RagPipelineFiles(afterOcr, ocrFile, retFile, DefaultK, search);
    assert LoadJsonFile(afterRet, retFile) == Some(RetrievedJson(r));
    RetrievedPassages(r.query, r.retrieved);
  }
}

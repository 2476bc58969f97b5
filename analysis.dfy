// The `/analyze` request: the guards that reject an upload, the keyword
// list the scan uses, the AI outcome, and the response the service returns.
// Storage, the language model and the clock are parameters: the keywords
// read from the store, the model's answer or failure, the identifiers and
// the timestamp.

module Analysis {
  import opened Wrappers
  import opened Text
  import opened PhraseScanner
  import opened SectionChecker
  import opened RiskScorer
  import opened Extraction

  /** The built-in dangerous phrases, always scanned first. */
  const DefaultDangerousKeywords: seq<string> := [
    "штраф", "пеня", "неустойка", "одностороннее расторжение",
    "безусловное обязательство", "автопролонгация", "безакцептное списание",
    "полная материальная ответственность", "без права отказа",
    "исключительные права", "бессрочное обязательство",
    "односторонний отказ", "полная ответственность за",
    "возмещение всех убытков", "неограниченная ответственность"
  ]

  /** At most this many stored keyword documents are read. */
  const CustomKeywordLimit: nat := 1000

  /** A text whose stripped form is shorter than this is rejected. */
  const MinimumTextLength: nat := 100

  const TooShortDetail: string := "Document is too short or empty"

  /** What replaces the analysis when the language model fails. */
  const AiUnavailablePrefix: string := "AI анализ временно недоступен: "

  // ---------------------------------------------------------------------
  // Keywords.

  /** The stored keywords actually read: the first `CustomKeywordLimit`. */
  function FetchedKeywords(stored: seq<string>): (ks: seq<string>)
    ensures |ks| <= CustomKeywordLimit
    ensures |stored| <= CustomKeywordLimit ==> ks == stored
    ensures |stored| > CustomKeywordLimit ==> ks == stored[..CustomKeywordLimit]
  {
    if |stored| <= CustomKeywordLimit then stored else stored[..CustomKeywordLimit]
  }

  /** The keywords of one analysis: the defaults followed by the stored
      ones, or the defaults alone when reading the store failed (`None`). */
  function AllKeywords(stored: Option<seq<string>>): seq<string>
  {
    match stored
    case None => DefaultDangerousKeywords
    case Some(s) => DefaultDangerousKeywords + FetchedKeywords(s)
  }

  /** The defaults are scanned first and in full whatever the store holds;
      the stored keywords only add matches after theirs. */
  lemma ScanWithStoredKeywords(text: string, stored: Option<seq<string>>)
    ensures Scan(text, AllKeywords(stored))
      == Scan(text, DefaultDangerousKeywords)
         + (if stored.Some? then Scan(text, FetchedKeywords(stored.value)) else [])
  {
    if stored.Some? {
      ScanAppend(text, DefaultDangerousKeywords, FetchedKeywords(stored.value));
    } else {
      assert Scan(text, AllKeywords(stored)) + [] == Scan(text, AllKeywords(stored));
    }
  }

  // ---------------------------------------------------------------------
  // The AI analysis.

  /** The analysis text: the model's answer, or the fallback message with
      the error's description when the call failed. */
  function AiAnalysisText(outcome: Result<string, string>): (s: string)
    ensures outcome.Ok? ==> s == outcome.value
    ensures outcome.Err? ==>
      && |s| >= |AiUnavailablePrefix|
      && s[..|AiUnavailablePrefix|] == AiUnavailablePrefix
      && s[|AiUnavailablePrefix|..] == outcome.error
  {
    match outcome
    case Ok(answer) => answer
    case Err(message) => AiUnavailablePrefix + message
  }

  /** The optional `ai_analysis` field: the analysis text unless it is empty. */
  function AiField(outcome: Result<string, string>): Option<string>
  {
    var s := AiAnalysisText(outcome);
    if s == "" then None else Some(s)
  }

  /** The field is absent exactly when the model answered with nothing; a
      failure always shows up as the fallback message. */
  lemma AiFieldAbsentIff(outcome: Result<string, string>)
    ensures AiField(outcome) == None <==> outcome == Ok("")
    ensures outcome.Err? ==> AiField(outcome) == Some(AiUnavailablePrefix + outcome.error)
  {
  }

  // ---------------------------------------------------------------------
  // The phrase records of the response.

  /** A value of a phrase record: the phrase and context are strings, the
      position a non-negative integer. */
  datatype JsonValue = JStr(str: string) | JNat(num: nat)

  /** Python's `str` of such a value. */
  function Str(v: JsonValue): (s: string)
  {
    match v
    case JStr(s) => s
    case JNat(n) => Decimal(n)
  }

  /** The dict `analyze_dangerous_phrases` builds for one occurrence. */
  function PhraseDict(m: PhraseMatch): map<string, JsonValue>
  {
    map["phrase" := JStr(m.phrase), "context" := JStr(m.context), "position" := JNat(m.position)]
  }

  /** A dict with every value replaced by its `str`. */
  function Stringified(d: map<string, JsonValue>): map<string, JsonValue>
  {
    map k | k in d :: JStr(Str(d[k]))
  }

  /** The response's phrase records: one stringified dict per occurrence. */
  function PhraseDicts(phrases: seq<PhraseMatch>): seq<map<string, JsonValue>>
  {
    seq(|phrases|, i requires 0 <= i < |phrases| => Stringified(PhraseDict(phrases[i])))
  }

  /** A sequence with the stringified dict of each phrase at its index is
      the response's phrase records. */
  lemma PhraseDictsFromElements(ds: seq<map<string, JsonValue>>, phrases: seq<PhraseMatch>)
    requires |ds| == |phrases|
    requires forall i :: 0 <= i < |ds| ==> ds[i] == Stringified(PhraseDict(phrases[i]))
    ensures ds == PhraseDicts(phrases)
  {
  }

  /** After stringifying, the record keeps its three keys, the phrase and
      context are unchanged and the position is its decimal numeral, which
      reads back as the position. */
  lemma StringifiedPhrase(m: PhraseMatch)
    ensures Stringified(PhraseDict(m)).Keys == {"phrase", "context", "position"}
    ensures Stringified(PhraseDict(m))["phrase"] == JStr(m.phrase)
    ensures Stringified(PhraseDict(m))["context"] == JStr(m.context)
    ensures Stringified(PhraseDict(m))["position"] == JStr(Decimal(m.position))
    ensures DecimalValue(Decimal(m.position)) == m.position
  {
    var d := PhraseDict(m);
    assert "phrase" != "context" && "phrase" != "position" && "context" != "position" by {
      assert "phrase"[0] != "context"[0] && "phrase"[0] != "position"[1] && "context"[0] != "position"[0];
    }
    assert d.Keys == {"phrase", "context", "position"};
    DecimalRoundTrip(m.position);
  }

  /** The inner loop of the response fix-up: every value of one dict is
      replaced by its `str`, one key at a time. */
  method StringifyValues(d: map<string, JsonValue>) returns (r: map<string, JsonValue>)
    ensures r.Keys == d.Keys
    ensures forall k :: k in d ==> r[k] == JStr(Str(d[k]))
  {
    r := d;
    var pending := d.Keys;
    while pending != {}
      invariant pending <= d.Keys && r.Keys == d.Keys
      invariant forall k :: k in d ==> r[k] == if k in pending then d[k] else JStr(Str(d[k]))
      decreases |pending|
    {
      var key :| key in pending;
      r := r[key := JStr(Str(r[key]))];
      pending := pending - {key};
    }
  }

  /** The outer loop: the phrase dicts of the response are updated in place. */
  method StringifyPhrases(phrases: array<map<string, JsonValue>>)
    modifies phrases
    ensures forall i :: 0 <= i < phrases.Length ==> phrases[i] == Stringified(old(phrases[i]))
  {
    for i := 0 to phrases.Length
      invariant forall j :: 0 <= j < i ==> phrases[j] == Stringified(old(phrases[j]))
      invariant forall j :: i <= j < phrases.Length ==> phrases[j] == old(phrases[j])
    {
      var d := StringifyValues(phrases[i]);
      phrases[i] := d;
    }
  }

  // ---------------------------------------------------------------------
  // The request.

  /** The JSON object returned for an accepted upload. */
  datatype AnalysisResponse = AnalysisResponse(
    id: string,
    filename: string,
    riskLevel: string,
    dangerousPhrases: seq<map<string, JsonValue>>,
    missingSections: seq<string>,
    aiAnalysis: Option<string>,
    createdAt: string)

  /** Where the upload is saved: the upload directory, a fresh identifier
      and the upload's own extension. */
  function SavedPath(uploadDir: string, fileId: string, ext: string): string
  {
    uploadDir + "/" + (fileId + ext)
  }

  /** The guards of `analyze_contract`, in order: the extension of the
      uploaded name, the extraction of the saved file, and the length of
      the stripped text. The result is the accepted text or the error. */
  function Admit(filename: string, uploadDir: string, fileId: string, readings: Readings): (r: Result<string, HttpError>)
    ensures r.Err? ==> r.error.status == 400
    ensures r.Ok? ==> Extension(filename) in AllowedExtensions && |Strip(r.value)| >= MinimumTextLength
  {
    var ext := Extension(filename);
    if ext !in AllowedExtensions then Err(HttpError(400, UnsupportedFormatDetail()))
    else
      var extracted := ExtractText(Extension(SavedPath(uploadDir, fileId, ext)), readings);
      if extracted.Err? then Err(extracted.error)
      else if |Strip(extracted.value)| < MinimumTextLength then Err(HttpError(400, TooShortDetail))
      else Ok(extracted.value)
  }

  /** The response for an accepted text scanned with `keywords`. */
  function Response(id: string, filename: string, text: string, keywords: seq<string>,
                    ai: Result<string, string>, createdAt: string): AnalysisResponse
  {
    var phrases := Scan(text, keywords);
    var missing := Missing(text, RequiredSections);
    var level := CalculateRiskLevel(|phrases|, |missing|);
    AnalysisResponse(id, filename, Name(level), PhraseDicts(phrases), missing, AiField(ai), createdAt)
  }

  /** `analyze_contract` from its inputs to the response or the error. */
  function Analyze(filename: string, uploadDir: string, fileId: string, readings: Readings,
                   stored: Option<seq<string>>, ai: Result<string, string>,
                   id: string, createdAt: string): Result<AnalysisResponse, HttpError>
  {
    var admitted := Admit(filename, uploadDir, fileId, readings);
    if admitted.Err? then Err(admitted.error)
    else Ok(Response(id, filename, admitted.value, AllKeywords(stored), ai, createdAt))
  }

  /** `analyze_contract`, step by step. */
  method AnalyzeContract(filename: string, uploadDir: string, fileId: string, readings: Readings,
                         stored: Option<seq<string>>, ai: Result<string, string>,
                         id: string, createdAt: string) returns (r: Result<AnalysisResponse, HttpError>)
    ensures r == Analyze(filename, uploadDir, fileId, readings, stored, ai, id, createdAt)
  {
    var admitted := AdmitUpload(filename, uploadDir, fileId, readings);
    if admitted.Err? {
      return Err(admitted.error);
    }
    var response := BuildResponse(id, filename, admitted.value, AllKeywords(stored), ai, createdAt);
    r := Ok(response);
  }

  /** The guards, as `analyze_contract` runs them before the analysis. */
  method AdmitUpload(filename: string, uploadDir: string, fileId: string, readings: Readings)
    returns (r: Result<string, HttpError>)
    ensures r == Admit(filename, uploadDir, fileId, readings)
  {
    var ext := Extension(filename);
    if ext !in AllowedExtensions {
      return Err(HttpError(400, UnsupportedFormatDetail()));
    }
    var filepath := SavedPath(uploadDir, fileId, ext);
    var extracted := ExtractTextFromFile(Extension(filepath), readings);
    if extracted.Err? {
      return Err(extracted.error);
    }
    var text := extracted.value;
    if |Strip(text)| < MinimumTextLength {
      return Err(HttpError(400, TooShortDetail));
    }
    r := Ok(text);
  }

  /** The response's phrase records: the scan's dicts, put in a list and
      then stringified in place. */
  method PhraseRecords(phrases: seq<PhraseMatch>) returns (records: seq<map<string, JsonValue>>)
    ensures records == PhraseDicts(phrases)
  {
    var dicts := new map<string, JsonValue>[|phrases|];
    for i := 0 to |phrases|
      invariant forall j :: 0 <= j < i ==> dicts[j] == PhraseDict(phrases[j])
    {
      dicts[i] := PhraseDict(phrases[i]);
    }
    StringifyPhrases(dicts);
    records := dicts[..];
    PhraseDictsFromElements(records, phrases);
  }

  /** The analysis of an accepted text and the response built from it. */
  method BuildResponse(id: string, filename: string, text: string, keywords: seq<string>,
                       ai: Result<string, string>, createdAt: string) returns (response: AnalysisResponse)
    ensures response == Response(id, filename, text, keywords, ai, createdAt)
  {
    var dangerous := AnalyzeDangerousPhrases(text, keywords);
    var missing := CheckMissingSections(text);
    var level := CalculateRiskLevel(|dangerous|, |missing|);
    var aiAnalysis := AiAnalysisText(ai);
    var records := PhraseRecords(dangerous);
    response := AnalysisResponse(id, filename, Name(level), records, missing,
                                 if aiAnalysis == "" then None else Some(aiAnalysis), createdAt);
  }

  // ---------------------------------------------------------------------
  // Properties of the request.

  /** An upload whose name lacks an allowed extension is rejected before
      anything is read, whatever the file, the store and the model hold. */
  lemma UnsupportedRejected(filename: string, uploadDir: string, fileId: string, readings: Readings,
                            stored: Option<seq<string>>, ai: Result<string, string>,
                            id: string, createdAt: string)
    requires Extension(filename) !in AllowedExtensions
    ensures Analyze(filename, uploadDir, fileId, readings, stored, ai, id, createdAt)
      == Err(HttpError(400, "Unsupported file format. Allowed: .txt, .docx, .pdf"))
  {
  }

  /** A fresh identifier holds no separator and no dot. */
  ghost predicate PlainId(fileId: string) {
    |fileId| > 0 && forall j :: 0 <= j < |fileId| ==> fileId[j] != '/' && fileId[j] != '.'
  }

  /** The saved file is read by the extension of the uploaded name. */
  lemma SavedFileReadByUploadExtension(filename: string, uploadDir: string, fileId: string, readings: Readings)
    requires Extension(filename) in AllowedExtensions && PlainId(fileId)
    ensures ExtractText(Extension(SavedPath(uploadDir, fileId, Extension(filename))), readings)
      == ExtractText(Extension(filename), readings)
  {
    SavedPathExtension(uploadDir, fileId, Extension(filename));
  }

  /** With a plain identifier, the guards read the saved file exactly as
      they would read a file of the uploaded name. */
  lemma AdmitReadsUpload(filename: string, uploadDir: string, fileId: string, readings: Readings)
    requires Extension(filename) in AllowedExtensions && PlainId(fileId)
    ensures var extracted := ExtractText(Extension(filename), readings);
      Admit(filename, uploadDir, fileId, readings)
        == if extracted.Err? then Err(extracted.error)
           else if |Strip(extracted.value)| < MinimumTextLength then Err(HttpError(400, TooShortDetail))
           else Ok(extracted.value)
  {
    SavedFileReadByUploadExtension(filename, uploadDir, fileId, readings);
  }

  /** A text with fewer than 100 characters once stripped is rejected,
      whatever the store and the model hold. */
  lemma TooShortRejected(filename: string, uploadDir: string, fileId: string, readings: Readings,
                         stored: Option<seq<string>>, ai: Result<string, string>,
                         id: string, createdAt: string, text: string)
    requires Extension(filename) in AllowedExtensions && PlainId(fileId)
    requires ExtractText(Extension(filename), readings) == Ok(text)
    requires |Strip(text)| < MinimumTextLength
    ensures Analyze(filename, uploadDir, fileId, readings, stored, ai, id, createdAt)
      == Err(HttpError(400, "Document is too short or empty"))
  {
    AdmitReadsUpload(filename, uploadDir, fileId, readings);
  }

  /** Every rejection is a client error, and the store and the model play
      no part in whether an upload is accepted. */
  lemma RejectionsAreClientErrors(filename: string, uploadDir: string, fileId: string, readings: Readings,
                                  stored1: Option<seq<string>>, ai1: Result<string, string>,
                                  stored2: Option<seq<string>>, ai2: Result<string, string>,
                                  id: string, createdAt: string)
    ensures Analyze(filename, uploadDir, fileId, readings, stored1, ai1, id, createdAt).Err?
      ==> Analyze(filename, uploadDir, fileId, readings, stored1, ai1, id, createdAt).error.status == 400
    ensures Analyze(filename, uploadDir, fileId, readings, stored1, ai1, id, createdAt).Ok?
      <==> Analyze(filename, uploadDir, fileId, readings, stored2, ai2, id, createdAt).Ok?
  {
  }

  /** An upload that passes the guards is answered with the response for
      its text and the keywords of this request. */
  lemma AcceptedResponse(filename: string, uploadDir: string, fileId: string, readings: Readings,
                         stored: Option<seq<string>>, ai: Result<string, string>,
                         id: string, createdAt: string, text: string)
    requires Extension(filename) in AllowedExtensions && PlainId(fileId)
    requires ExtractText(Extension(filename), readings) == Ok(text)
    requires |Strip(text)| >= MinimumTextLength
    ensures Analyze(filename, uploadDir, fileId, readings, stored, ai, id, createdAt)
      == Ok(Response(id, filename, text, AllKeywords(stored), ai, createdAt))
  {
    AdmitReadsUpload(filename, uploadDir, fileId, readings);
  }

  /** The response carries the given identifiers, one record per phrase
      occurrence in scan order, the missing sections, and the level
      computed from the two counts. */
  lemma ResponseContents(id: string, filename: string, text: string, keywords: seq<string>,
                         ai: Result<string, string>, createdAt: string)
    ensures var r := Response(id, filename, text, keywords, ai, createdAt);
      && r.id == id && r.filename == filename && r.createdAt == createdAt
      && |r.dangerousPhrases| == |Scan(text, keywords)|
      && r.missingSections == Missing(text, RequiredSections)
      && r.riskLevel == Name(CalculateRiskLevel(|Scan(text, keywords)|, |Missing(text, RequiredSections)|))
  {
  }

  /** Record `i` of the response is occurrence `i` of the scan, with every
      value as a string and the position readable back. */
  lemma ResponsePhraseRecord(text: string, keywords: seq<string>, i: nat)
    requires i < |Scan(text, keywords)|
    ensures var m := Scan(text, keywords)[i];
      var d := PhraseDicts(Scan(text, keywords))[i];
      && d.Keys == {"phrase", "context", "position"}
      && d["phrase"] == JStr(m.phrase) && d["context"] == JStr(m.context)
      && d["position"].JStr? && DecimalValue(d["position"].str) == m.position
  {
    StringifiedPhrase(Scan(text, keywords)[i]);
  }

  /** The model's outcome changes only the `ai_analysis` field. */
  lemma RiskIndependentOfAi(id: string, filename: string, text: string, keywords: seq<string>,
                            ai1: Result<string, string>, ai2: Result<string, string>, createdAt: string)
    ensures Response(id, filename, text, keywords, ai1, createdAt).(aiAnalysis := None)
      == Response(id, filename, text, keywords, ai2, createdAt).(aiAnalysis := None)
  {
  }

  /** Every level name is one of the three names `calculate_risk_level` returns. */
  lemma RiskLevelNamed(id: string, filename: string, text: string, keywords: seq<string>,
                       ai: Result<string, string>, createdAt: string)
    ensures Response(id, filename, text, keywords, ai, createdAt).riskLevel in ["LOW", "MEDIUM", "HIGH"]
  {
  }

  lemma AtLeastOnce(c: nat, n: nat)
    requires c >= 1
    ensures c * n >= n
  {
  }

  /** An empty keyword matches at every index of the text, one more index
      than the text has characters, so it alone yields more records than
      the text has characters, whatever the text. */
  lemma EmptyKeywordFloods(text: string, keywords: seq<string>)
    requires "" in keywords
    ensures |Scan(text, keywords)| > |text|
  {
    var rs := Scan(text, keywords);
    KeywordCountPositive(keywords, "");
    DuplicateKeywordsCounted(text, keywords, "");
    AtLeastOnce(KeywordCount(keywords, ""), |Occurrences(Lower(text), Lower(""), 0)|);
    assert Lower("") == "";
    EmptyKeywordEverywhere(Lower(text), 0);
    PhraseCountBound(rs, "");
  }

  /** An accepted text has at least 100 characters, so with an empty
      keyword the level is HIGH whatever the missing sections. */
  lemma EmptyKeywordMeansHigh(text: string, keywords: seq<string>, missingCount: nat)
    requires "" in keywords
    requires |Strip(text)| >= MinimumTextLength
    ensures CalculateRiskLevel(|Scan(text, keywords)|, missingCount) == High
  {
    EmptyKeywordFloods(text, keywords);
  }

  /** So an empty keyword in the store forces HIGH on every accepted upload. */
  lemma EmptyStoredKeywordMeansHigh(text: string, stored: seq<string>)
    requires "" in FetchedKeywords(stored)
    requires |Strip(text)| >= MinimumTextLength
    ensures CalculateRiskLevel(|Scan(text, AllKeywords(Some(stored)))|, |Missing(text, RequiredSections)|) == High
  {
    var fetched := FetchedKeywords(stored);
    var i :| 0 <= i < |fetched| && fetched[i] == "";
    var ks := AllKeywords(Some(stored));
    assert ks[|DefaultDangerousKeywords| + i] == "";
    EmptyKeywordMeansHigh(text, ks, |Missing(text, RequiredSections)|);
  }
}

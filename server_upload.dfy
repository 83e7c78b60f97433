/**
 * The command-line uploader of server/load_image_service.py: check the
 * image, upload it under its sanitized name, then poll the bucket (at
 * most ten times) for the analysis the article-generating Lambda writes,
 * and report the outcome as a JSON-ready record.
 *
 * S3 is an input: `uploadError` is the exception `upload_file` raises, if
 * any, and `answers[k]` is what the k-th `get_analysis_json` call returns
 * (`JNull` for Python's `None`, which covers both "no such key" and any
 * other error).
 */
module ServerUpload {
  import opened Wrappers
  import opened PyStr
  import opened S3Layout
  import opened UploadNames
  import ArticleGenerator

  /** `MAX_RETRIES`. */
  const MaxRetries: nat := 10

  /** A value `json.loads` can return. */
  datatype Json =
    | JNull
    | JBool(b: bool)
    | JNumber(n: real)
    | JString(s: string)
    | JArray(items: seq<Json>)
    | JObject(members: map<string, Json>)

  /** Python's truth value of such a value (`if analysis_data:`): `None`,
      `False`, zero and empty strings, lists and dicts are false. */
  predicate Truthy(j: Json) {
    match j
    case JNull => false
    case JBool(b) => b
    case JNumber(n) => n != 0.0
    case JString(s) => s != ""
    case JArray(items) => items != []
    case JObject(members) => members != map[]
  }

  /** The position of the first truthy answer, or `|answers|` when none is. */
  function FirstTruthy(answers: seq<Json>): (i: nat)
    ensures i <= |answers|
    ensures i < |answers| ==> Truthy(answers[i])
    ensures forall k | 0 <= k < i :: !Truthy(answers[k])
  {
    if answers == [] then 0
    else if Truthy(answers[0]) then 0
    else 1 + FirstTruthy(answers[1..])
  }

  /** The retry loop: look the analysis up, stop at the first truthy answer,
      give up after `MAX_RETRIES` lookups. */
  method FetchAnalysis(answers: seq<Json>) returns (analysisData: Json, lookups: nat)
    requires |answers| >= MaxRetries
    ensures 1 <= lookups <= MaxRetries
    ensures analysisData == answers[lookups - 1]
    ensures forall k | 0 <= k < lookups - 1 :: !Truthy(answers[k])
    ensures Truthy(analysisData) || lookups == MaxRetries
    ensures lookups == if FirstTruthy(answers[..MaxRetries]) < MaxRetries then FirstTruthy(answers[..MaxRetries]) + 1 else MaxRetries
    ensures Truthy(analysisData) <==> FirstTruthy(answers[..MaxRetries]) < MaxRetries
    ensures Truthy(analysisData) ==> analysisData == answers[FirstTruthy(answers[..MaxRetries])]
  {
    analysisData := JNull;
    lookups := 0;
    for attempt := 0 to MaxRetries
      invariant lookups == attempt
      invariant forall k | 0 <= k < attempt :: !Truthy(answers[k])
      invariant attempt > 0 ==> analysisData == answers[attempt - 1]
    {
      analysisData := answers[attempt];
      lookups := lookups + 1;
      if Truthy(analysisData) {
        break;
      }
    }
    assert forall k | 0 <= k < MaxRetries :: answers[..MaxRetries][k] == answers[k];
    FirstTruthyAt(answers[..MaxRetries], lookups);
  }

  /** The first truthy answer is found by counting falsy ones. */
  lemma FirstTruthyAt(answers: seq<Json>, lookups: nat)
    requires 1 <= lookups <= |answers|
    requires forall k | 0 <= k < lookups - 1 :: !Truthy(answers[k])
    requires Truthy(answers[lookups - 1]) || lookups == |answers|
    ensures lookups == if FirstTruthy(answers) < |answers| then FirstTruthy(answers) + 1 else |answers|
    ensures Truthy(answers[lookups - 1]) <==> FirstTruthy(answers) < |answers|
  {
  }

  /** The dict returned by `load_image_to_s3`. */
  datatype UploadRecord =
    | UploadFailed(filename: string, message: string, error: string)
    | UploadSucceeded(filename: string, message: string, imageUrl: string, analysis: Json)

  const FailedMessage: string := "Upload failed"
  const SucceededMessage: string := "Upload successful"
  const InvalidImageError: string := "Invalid image format or size."

  /** What the record holds when no analysis turned up. */
  const MissingAnalysisNote: Json := JObject(map["note" := JString("Analysis JSON not found after waiting.")])

  /** `load_image_to_s3(image_file_path)`. `uploadedAs` is the object name
      `upload_file` was called with, if it was called. */
  method LoadImageToS3(path: string, isFile: bool, size: nat, timestamp: string, uploadError: Option<string>, answers: seq<Json>)
    returns (record: UploadRecord, uploadedAs: Option<string>, lookups: nat)
    requires |answers| >= MaxRetries
    ensures !IsValidImage(path, isFile, size) ==>
      record == UploadFailed(Basename(path), FailedMessage, InvalidImageError) && uploadedAs == None && lookups == 0
    ensures IsValidImage(path, isFile, size) ==> uploadedAs == Some(SanitizeFilename(Basename(path), timestamp))
    ensures IsValidImage(path, isFile, size) && uploadError.Some? ==>
      record == UploadFailed(Basename(path), FailedMessage, uploadError.value) && lookups == 0
    ensures IsValidImage(path, isFile, size) && uploadError.None? ==>
      && record.UploadSucceeded?
      && record.filename == uploadedAs.value
      && record.message == SucceededMessage
      && record.imageUrl == ObjectUrl(uploadedAs.value)
      && 1 <= lookups <= MaxRetries
      && record.analysis == if FirstTruthy(answers[..MaxRetries]) < MaxRetries then answers[FirstTruthy(answers[..MaxRetries])] else MissingAnalysisNote
  {
    if !IsValidImage(path, isFile, size) {
      return UploadFailed(Basename(path), FailedMessage, InvalidImageError), None, 0;
    }
    var originalFilename := Basename(path);
    var sanitizedFilename := SanitizeFilename(originalFilename, timestamp);
    uploadedAs := Some(sanitizedFilename);
    if uploadError.Some? {
      return UploadFailed(Basename(path), FailedMessage, uploadError.value), uploadedAs, 0;
    }
    var url := ObjectUrl(sanitizedFilename);
    var analysisData;
    analysisData, lookups := FetchAnalysis(answers);
    record := UploadSucceeded(sanitizedFilename, SucceededMessage, url, if Truthy(analysisData) then analysisData else MissingAnalysisNote);
  }

  /** The key the uploader polls is the key the article-generating Lambda
      writes when S3 reports the new object under the uploaded name: the
      uploaded name has no '/', so the Lambda's last-segment step keeps it
      whole. (S3 event notifications URL-encode the key; names holding
      characters that change under that encoding are not covered.) */
  lemma PolledKeyIsWrittenKey(path: string, timestamp: string)
    requires '/' !in timestamp
    ensures var uploaded := SanitizeFilename(Basename(path), timestamp);
      AnalysisKey(uploaded) == ArticleGenerator.OutputKey(uploaded)
  {
    var uploaded := SanitizeFilename(Basename(path), timestamp);
    SanitizedHasNoSlash(Basename(path), timestamp);
    BasenameOfPlain(uploaded);
  }

  /** Spelled out, the polled key is "analysis/" + the sanitized stem +
      "_" + the timestamp + ".json": the extension is dropped. */
  lemma PolledKeySpelledOut(path: string, timestamp: string)
    requires '/' !in timestamp && '.' !in timestamp
    ensures AnalysisKey(SanitizeFilename(Basename(path), timestamp)) ==
      AnalysisPrefix + (SanitizedBase(SplitExt(Basename(path)).0) + "_" + timestamp) + JsonSuffix
  {
    var name := Basename(path);
    SanitizedKeepsExtension(name, timestamp);
    var stamped := SanitizedBase(SplitExt(name).0) + "_" + timestamp;
  }
}

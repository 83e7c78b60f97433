/**
 * The first analysis Lambda
 * (lambda/lambda_function_facial_celebrity_detection.py): the same
 * Rekognition calls and keyword string as the article generator, but the
 * OpenAI reply is cut at its first newline into a title and a body, and
 * the analysis goes to "analysis/<whole image name>.json".
 */
module CelebrityDetection {
  import opened Wrappers
  import opened PyStr
  import opened Rekognition
  import opened S3Layout
  import ArticleGenerator

  /** The `ValueError` a one-part split raises on a two-name unpack. */
  const UnpackError: string := "not enough values to unpack (expected 2, got 1)"

  /** `title, content = reply.split('\n', 1)` followed by `.strip()` on
      both: a reply holding no newline splits into one part only, and the
      two-name unpacking raises, which is the failure here. */
  function SplitTitle(reply: string): (r: Result<(string, string)>)
    ensures r.Success? <==> '\n' in reply
    ensures r.Success? ==> '\n' !in r.value.0
    ensures r.Success? ==> r.value.0 == Strip(reply[..FirstIndex(reply, '\n')])
    ensures r.Success? ==> r.value.1 == Strip(reply[FirstIndex(reply, '\n') + 1..])
  {
    var i := FirstIndex(reply, '\n');
    FirstIndexFinds(reply, '\n');
    if i == |reply| then Failure(UnpackError)
    else Success((Strip(reply[..i]), Strip(reply[i + 1..])))
  }

  /** A reply laid out as the prompt asks (a title line, a newline, the
      article) gives back that title and that article, stripped; the
      article may hold further newlines. */
  lemma SplitTitleRoundTrip(title: string, article: string)
    requires '\n' !in title
    ensures SplitTitle(title + "\n" + article) == Success((Strip(title), Strip(article)))
  {
    var reply := title + "\n" + article;
    assert reply[|title|] == '\n';
    assert forall k | 0 <= k < |title| :: reply[k] == title[k];
    assert FirstIndex(reply, '\n') == |title|;
    assert reply[..|title|] == title;
    assert reply[|title| + 1..] == article;
  }

  /** `f"analysis/{key.split('/')[-1]}.json"`: the image's basename,
      extension included, under "analysis/". */
  function OutputKey(key: string): (outKey: string)
    ensures outKey == AnalysisPrefix + Basename(key) + JsonSuffix
    ensures StartsWith(outKey, AnalysisPrefix) && EndsWith(outKey, JsonSuffix)
    ensures '/' !in outKey[|AnalysisPrefix|..]
  {
    var segments := Split(key, '/');
    LastSegmentIsBasename(key);
    var name := segments[|segments| - 1];
    Affixes(AnalysisPrefix, name, JsonSuffix);
    JsonSuffixHasNoSlash();
    assert '/' !in name + JsonSuffix;
    AnalysisPrefix + name + JsonSuffix
  }

  /** The two Lambdas write their analyses to the same key exactly when
      the image name has no extension: otherwise this one keeps the
      extension ("analysis/cat.png.json") and the article generator drops
      it ("analysis/cat.json"). */
  lemma OutputKeysAgreeIffNoExtension(key: string)
    ensures OutputKey(key) == ArticleGenerator.OutputKey(key) <==> SplitExt(Basename(key)).1 == ""
  {
    var b := Basename(key);
    var (stem, ext) := SplitExt(b);
    assert |OutputKey(key)| == |AnalysisPrefix| + |b| + |JsonSuffix|;
    assert |ArticleGenerator.OutputKey(key)| == |AnalysisPrefix| + |stem| + |JsonSuffix|;
    if ext == "" {
      assert stem == b;
    }
  }

  /** The JSON object this handler writes. */
  datatype Analysis = Analysis(
    image: string,
    labels: seq<Label>,
    celebrities: seq<CelebrityEntry>,
    articleTitle: string,
    articleContent: string)

  /** `lambda_handler` for one S3 event, with Rekognition's answers and
      OpenAI's reply as inputs: the keyword string sent to OpenAI, and
      either the key and body of the object written or, when the reply
      has no newline, the failure that stops the handler before it writes. */
  method Handle(key: string, labels: seq<Label>, faces: seq<CelebrityFace>, reply: string)
    returns (written: Result<(string, Analysis)>, keywords: string)
    ensures keywords == Keywords(CelebrityNames(faces) + LabelNames(labels))
    ensures written.Success? <==> '\n' in reply
    ensures written.Success? ==> written.value.0 == OutputKey(key)
    ensures written.Success? ==> written.value.1.image == key && written.value.1.labels == labels
    ensures written.Success? ==> |written.value.1.celebrities| == |faces|
    ensures written.Success? ==> forall i | 0 <= i < |faces| :: written.value.1.celebrities[i] == EntryFor(faces[i])
    ensures written.Success? ==> (written.value.1.articleTitle, written.value.1.articleContent) == SplitTitle(reply).value
  {
    var celebrities := CelebrityEntries(faces);
    var items := KeywordList(celebrities, labels);
    assert items == CelebrityNames(faces) + LabelNames(labels);
    keywords := Keywords(items);
    var article := SplitTitle(reply);
    if article.Failure? {
      return Failure(article.error), keywords;
    }
    var (title, content) := article.value;
    written := Success((OutputKey(key), Analysis(key, labels, celebrities, title, content)));
  }
}

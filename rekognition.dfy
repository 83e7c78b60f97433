/**
 * What both analysis Lambdas do with Rekognition's answers before asking
 * OpenAI for an article: copy each recognised celebrity into the output
 * record, and collect the celebrity names followed by the label names
 * into one comma-separated keyword string. The two handlers
 * (lambda/lambda_function_detection_articlegenerator.py and
 * lambda/lambda_function_facial_celebrity_detection.py) run the same
 * loops, so they are defined once here.
 */
module Rekognition {
  import opened Wrappers
  import PyStr

  /** A Rekognition confidence score, a float the code only passes along. */
  datatype Confidence = Confidence(score: real)

  /** One entry of `detect_labels`' `Labels`. Only `Name` is read. */
  datatype Label = Label(name: string, confidence: Confidence)

  /** One entry of `recognize_celebrities`' `CelebrityFaces`; `Urls` may be missing. */
  datatype CelebrityFace = CelebrityFace(name: string, matchConfidence: Confidence, urls: Option<seq<string>>)

  /** The record written to `output['celebrities']`. */
  datatype CelebrityEntry = CelebrityEntry(name: string, confidence: Confidence, url: seq<string>)

  /** The record made for one face: its name and match confidence, and
      its `Urls`, or [] when the face has none. */
  function EntryFor(face: CelebrityFace): (e: CelebrityEntry)
    ensures e.name == face.name && e.confidence == face.matchConfidence
    ensures e.url == if face.urls.Some? then face.urls.value else []
  {
    CelebrityEntry(face.name, face.matchConfidence, face.urls.GetOr([]))
  }

  /** The append loop over `CelebrityFaces`: one entry per face, in order. */
  method CelebrityEntries(faces: seq<CelebrityFace>) returns (entries: seq<CelebrityEntry>)
    ensures |entries| == |faces|
    ensures forall i | 0 <= i < |faces| :: entries[i] == EntryFor(faces[i])
  {
    entries := [];
    for i := 0 to |faces|
      invariant |entries| == i
      invariant forall j | 0 <= j < i :: entries[j] == EntryFor(faces[j])
    {
      entries := entries + [EntryFor(faces[i])];
    }
  }

  /** The two append loops building `label_list`: every celebrity name in
      order, then every label name in order. */
  method KeywordList(celebrities: seq<CelebrityEntry>, labels: seq<Label>) returns (items: seq<string>)
    ensures |items| == |celebrities| + |labels|
    ensures forall i | 0 <= i < |celebrities| :: items[i] == celebrities[i].name
    ensures forall j | 0 <= j < |labels| :: items[|celebrities| + j] == labels[j].name
  {
    items := [];
    for i := 0 to |celebrities|
      invariant |items| == i
      invariant forall k | 0 <= k < i :: items[k] == celebrities[k].name
    {
      items := items + [celebrities[i].name];
    }
    for j := 0 to |labels|
      invariant |items| == |celebrities| + j
      invariant forall k | 0 <= k < |celebrities| :: items[k] == celebrities[k].name
      invariant forall k | 0 <= k < j :: items[|celebrities| + k] == labels[k].name
    {
      items := items + [labels[j].name];
    }
  }

  /** The names of a list of faces, in order. */
  function CelebrityNames(faces: seq<CelebrityFace>): (names: seq<string>)
    ensures |names| == |faces| && forall i | 0 <= i < |faces| :: names[i] == faces[i].name
  {
    seq(|faces|, i requires 0 <= i < |faces| => faces[i].name)
  }

  /** The names of a list of labels, in order. */
  function LabelNames(labels: seq<Label>): (names: seq<string>)
    ensures |names| == |labels| && forall i | 0 <= i < |labels| :: names[i] == labels[i].name
  {
    seq(|labels|, i requires 0 <= i < |labels| => labels[i].name)
  }

  /** The separator of `", ".join(label_list)`. */
  const KeywordSeparator: string := ", "

  /** `", ".join(label_list)`. */
  function Keywords(items: seq<string>): string {
    PyStr.Join(KeywordSeparator, items)
  }

  /** The keyword string has no separator before the first item or after
      the last: no items give "", one item gives that item, and each further
      item adds exactly ", " and itself at the end. */
  lemma KeywordsShape(items: seq<string>, x: string)
    ensures Keywords([]) == ""
    ensures Keywords([x]) == x
    ensures items != [] ==> Keywords(items + [x]) == Keywords(items) + KeywordSeparator + x
  {
    if items != [] {
      PyStr.JoinSnoc(KeywordSeparator, items, x);
    }
  }
}

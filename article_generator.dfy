/**
 * The article-generating Lambda
 * (lambda/lambda_function_detection_articlegenerator.py): for an image
 * dropped in the bucket it asks Rekognition for labels and celebrities,
 * draws a newspaper section, asks OpenAI for an article in a fixed
 * "Title: / Sub-title: / Content:" layout, parses the reply line by line
 * and writes the whole analysis to "analysis/<image name without its
 * extension>.json".
 *
 * Rekognition's answers, the random draw and OpenAI's reply are inputs.
 */
module ArticleGenerator {
  import opened PyStr
  import opened Rekognition
  import opened S3Layout

  /** The sections `random.choice` draws from. */
  const Categories: seq<string> := ["Headline", "News", "Sports", "Feature", "Editorial", "Business", "Entertainment"]

  /** `random.choice(categories)`, with the drawn position as input. */
  function ChooseCategory(pick: nat): (category: string)
    requires pick < |Categories|
    ensures category in Categories
  {
    Categories[pick]
  }

  const TitleTag: string := "Title:"
  const SubTitleTag: string := "Sub-title:"
  const ContentTag: string := "Content:"

  /** No stripped line starts with two of the three tags: they differ in
      their first character, so the parser's `elif` order never matters. */
  lemma TagsExclusive(s: string)
    ensures !(StartsWith(s, TitleTag) && StartsWith(s, SubTitleTag))
    ensures !(StartsWith(s, TitleTag) && StartsWith(s, ContentTag))
    ensures !(StartsWith(s, SubTitleTag) && StartsWith(s, ContentTag))
  {
    if StartsWith(s, TitleTag) {
      assert s[0] == s[..|TitleTag|][0] == 'T';
    }
    if StartsWith(s, SubTitleTag) {
      assert s[0] == s[..|SubTitleTag|][0] == 'S';
    }
  }

  /** `content.strip().split('\n')`. */
  function ReplyLines(reply: string): seq<string> {
    Split(Strip(reply), '\n')
  }

  /** `line.strip().startswith(tag)`. */
  predicate Tagged(line: string, tag: string) {
    StartsWith(Strip(line), tag)
  }

  /** `line.replace(tag, "").strip()` on the stripped line: the field's value. */
  function FieldValue(line: string, tag: string): string
    requires tag != []
  {
    Strip(Replace(Strip(line), tag, ""))
  }

  /** The index of the last line carrying `tag`, or -1 when none does. */
  function LastTagged(lines: seq<string>, tag: string): (i: int)
    ensures -1 <= i < |lines|
    ensures i >= 0 ==> Tagged(lines[i], tag)
    ensures forall k {:trigger Tagged(lines[k], tag)} | i < k < |lines| :: !Tagged(lines[k], tag)
  {
    LastTaggedBefore(lines, tag, |lines|)
  }

  /** The last index below `j` whose line carries `tag`, or -1. */
  function LastTaggedBefore(lines: seq<string>, tag: string, j: nat): (i: int)
    requires j <= |lines|
    ensures -1 <= i < j
    ensures i >= 0 ==> Tagged(lines[i], tag)
    ensures forall k {:trigger Tagged(lines[k], tag)} | i < k < j :: !Tagged(lines[k], tag)
  {
    if j == 0 then -1
    else if Tagged(lines[j - 1], tag) then j - 1
    else LastTaggedBefore(lines, tag, j - 1)
  }

  /** The index of the first line carrying `tag`, or `|lines|` when none does. */
  function FirstTagged(lines: seq<string>, tag: string): (i: nat)
    ensures i <= |lines|
    ensures i < |lines| ==> Tagged(lines[i], tag)
    ensures forall k {:trigger Tagged(lines[k], tag)} | 0 <= k < i :: !Tagged(lines[k], tag)
  {
    FirstTaggedFrom(lines, tag, 0)
  }

  /** The first index from `j` on whose line carries `tag`, or `|lines|`. */
  function FirstTaggedFrom(lines: seq<string>, tag: string, j: nat): (i: nat)
    requires j <= |lines|
    ensures j <= i <= |lines|
    ensures i < |lines| ==> Tagged(lines[i], tag)
    ensures forall k {:trigger Tagged(lines[k], tag)} | j <= k < i :: !Tagged(lines[k], tag)
    decreases |lines| - j
  {
    if j == |lines| then j
    else if Tagged(lines[j], tag) then j
    else FirstTaggedFrom(lines, tag, j + 1)
  }

  /** The value of a tagged field: "" when no line carries the tag,
      otherwise the value on the last line that does (later lines win). */
  function TaggedValue(lines: seq<string>, tag: string): string
    requires tag != []
  {
    var i := LastTagged(lines, tag);
    if i < 0 then "" else FieldValue(lines[i], tag)
  }

  /** A line the parser appends to the body once "Content:" has been seen:
      not blank after stripping, and carrying none of the three tags. */
  predicate IsBodyLine(line: string) {
    var s := Strip(line);
    s != "" && !StartsWith(s, TitleTag) && !StartsWith(s, SubTitleTag) && !StartsWith(s, ContentTag)
  }

  /** The stripped body lines among `lines`, in order. */
  function BodyLines(lines: seq<string>): (xs: seq<string>)
    ensures |xs| <= |lines|
  {
    if lines == [] then []
    else (if IsBodyLine(lines[0]) then [Strip(lines[0])] else []) + BodyLines(lines[1..])
  }

  /** Each line followed by "\n", concatenated. */
  function Unlines(xs: seq<string>): string {
    if xs == [] then "" else xs[0] + "\n" + Unlines(xs[1..])
  }

  /** The article body: "" until a line starting with "Content:"; then
      every body line after that one (the rest of the "Content:" line
      itself is dropped), each followed by "\n". */
  function ReplyBody(reply: string): string {
    var lines := ReplyLines(reply);
    var c := FirstTagged(lines, ContentTag);
    if c == |lines| then "" else Unlines(BodyLines(lines[c + 1..]))
  }

  lemma {:induction false} BodyLinesSnoc(lines: seq<string>, x: string)
    ensures BodyLines(lines + [x]) == BodyLines(lines) + (if IsBodyLine(x) then [Strip(x)] else [])
    decreases |lines|
  {
    if lines != [] {
      assert (lines + [x])[1..] == lines[1..] + [x];
      BodyLinesSnoc(lines[1..], x);
    } else {
      assert BodyLines([x]) == (if IsBodyLine(x) then [Strip(x)] else []) + BodyLines([]);
    }
  }

  lemma {:induction false} UnlinesAppend(xs: seq<string>, ys: seq<string>)
    ensures Unlines(xs + ys) == Unlines(xs) + Unlines(ys)
    decreases |xs|
  {
    if xs != [] {
      assert (xs + ys)[1..] == xs[1..] + ys;
      UnlinesAppend(xs[1..], ys);
    } else {
      assert xs + ys == ys;
    }
  }

  /** One more line updates a tagged field exactly when it carries the tag. */
  lemma TaggedValueStep(lines: seq<string>, tag: string, i: nat)
    requires tag != [] && i < |lines|
    ensures TaggedValue(lines[..i + 1], tag) == if Tagged(lines[i], tag) then FieldValue(lines[i], tag) else TaggedValue(lines[..i], tag)
  {
    var a, b := lines[..i + 1], lines[..i];
    assert a[i] == lines[i];
    assert LastTagged(a, tag) == if Tagged(a[i], tag) then i else LastTaggedBefore(a, tag, i);
    LastTaggedBeforeAgree(a, b, tag, i);
  }

  /** The search below `j` looks at those lines only. */
  lemma {:induction false} LastTaggedBeforeAgree(a: seq<string>, b: seq<string>, tag: string, j: nat)
    requires j <= |a| && j <= |b|
    requires forall k | 0 <= k < j :: a[k] == b[k]
    ensures LastTaggedBefore(a, tag, j) == LastTaggedBefore(b, tag, j)
  {
    if j > 0 {
      LastTaggedBeforeAgree(a, b, tag, j - 1);
      assert a[j - 1] == b[j - 1];
    }
  }

  /** The first tagged line of `lines[..n + 1]` is that of `lines[..n]`
      when it has one, and otherwise line n or none. */
  lemma FirstTaggedPrefix(lines: seq<string>, tag: string, n: nat)
    requires n + 1 == |lines|
    ensures FirstTagged(lines[..n], tag) < n ==> FirstTagged(lines, tag) == FirstTagged(lines[..n], tag)
    ensures FirstTagged(lines[..n], tag) == n ==> FirstTagged(lines, tag) == if Tagged(lines[n], tag) then n else n + 1
  {
    var f := FirstTagged(lines[..n], tag);
    assert forall k | 0 <= k < n :: lines[..n][k] == lines[k];
  }

  /** The body collected once lines `..i` have been read, `c` being the
      index of the first "Content:" line. */
  ghost function BodySoFar(lines: seq<string>, c: nat, i: nat): string
    requires i <= |lines|
  {
    if c < i then Unlines(BodyLines(lines[c + 1..i])) else ""
  }

  /** The body so far does not depend on the lines not yet read. */
  lemma BodySoFarPrefix(lines: seq<string>, c: nat, n: nat)
    requires n <= |lines|
    ensures BodySoFar(lines[..n], c, n) == BodySoFar(lines, c, n)
  {
    if c < n {
      assert lines[..n][c + 1..n] == lines[c + 1..n];
    }
  }

  /** One more line after the "Content:" line adds itself and a newline to
      the body when it is a body line, and nothing otherwise. */
  lemma BodyStep(lines: seq<string>, c: nat, i: nat)
    requires i < |lines|
    ensures BodySoFar(lines, c, i + 1) ==
      BodySoFar(lines, c, i) + if c < i && IsBodyLine(lines[i]) then Strip(lines[i]) + "\n" else ""
  {
    if c < i {
      assert lines[c + 1..i + 1] == lines[c + 1..i] + [lines[i]];
      BodyLinesSnoc(lines[c + 1..i], lines[i]);
      UnlinesAppend(BodyLines(lines[c + 1..i]), if IsBodyLine(lines[i]) then [Strip(lines[i])] else []);
    }
  }

  /** What the parser holds between two lines of the reply. */
  datatype ParseState = ParseState(title: string, subTitle: string, body: string, parseContent: bool)

  /** One turn of the parser's loop, on the unstripped line. */
  function ParseLine(st: ParseState, raw: string): ParseState {
    var line := Strip(raw);
    if StartsWith(line, TitleTag) then st.(title := Strip(Replace(line, TitleTag, "")))
    else if StartsWith(line, SubTitleTag) then st.(subTitle := Strip(Replace(line, SubTitleTag, "")))
    else if StartsWith(line, ContentTag) then st.(parseContent := true)
    else if st.parseContent && line != "" then st.(body := st.body + line + "\n")
    else st
  }

  /** The parser's state after reading `lines` in order. */
  function ParseLines(lines: seq<string>): ParseState {
    if lines == [] then ParseState("", "", "", false)
    else ParseLine(ParseLines(lines[..|lines| - 1]), lines[|lines| - 1])
  }

  /** Reading one more line of a prefix is one more turn of the parser. */
  lemma ParseLinesPrefix(lines: seq<string>, i: nat)
    requires i < |lines|
    ensures ParseLines(lines[..i + 1]) == ParseLine(ParseLines(lines[..i]), lines[i])
  {
    assert lines[..i + 1][..i] == lines[..i];
  }

  /** After any prefix of the lines, the title is the value on the last
      "Title:" line and the sub-title the value on the last "Sub-title:" line. */
  lemma {:induction false} ParseLinesFields(lines: seq<string>)
    ensures ParseLines(lines).title == TaggedValue(lines, TitleTag)
    ensures ParseLines(lines).subTitle == TaggedValue(lines, SubTitleTag)
    decreases |lines|
  {
    if lines != [] {
      var n := |lines| - 1;
      ParseLinesFields(lines[..n]);
      TagsExclusive(Strip(lines[n]));
      TaggedValueStep(lines, TitleTag, n);
      TaggedValueStep(lines, SubTitleTag, n);
      assert lines[..n + 1] == lines;
    }
  }

  /** One turn raises the flag exactly on a "Content:" line and never lowers it. */
  lemma ParseLineFlag(st: ParseState, raw: string)
    ensures ParseLine(st, raw).parseContent == (st.parseContent || Tagged(raw, ContentTag))
  {
    TagsExclusive(Strip(raw));
  }

  /** After any prefix of the lines, the flag is up exactly when a
      "Content:" line has been read. */
  lemma {:induction false} ParseLinesFlag(lines: seq<string>)
    ensures ParseLines(lines).parseContent <==> FirstTagged(lines, ContentTag) < |lines|
    decreases |lines|
  {
    if lines != [] {
      var n := |lines| - 1;
      var prev := ParseLines(lines[..n]);
      assert ParseLines(lines) == ParseLine(prev, lines[n]);
      ParseLinesFlag(lines[..n]);
      ParseLineFlag(prev, lines[n]);
      FirstTaggedPrefix(lines, ContentTag, n);
      var f := FirstTagged(lines[..n], ContentTag);
      if f < n {
        assert FirstTagged(lines, ContentTag) == f;
      } else {
        assert !prev.parseContent;
      }
    }
  }

  /** After any prefix of the lines, the body is the body lines following
      the first "Content:" line, or "" while there is none. */
  lemma {:induction false} ParseLinesBody(lines: seq<string>)
    ensures ParseLines(lines).body == BodySoFar(lines, FirstTagged(lines, ContentTag), |lines|)
    decreases |lines|
  {
    if lines != [] {
      var n := |lines| - 1;
      ParseLinesBody(lines[..n]);
      ParseLinesFlag(lines[..n]);
      TagsExclusive(Strip(lines[n]));
      FirstTaggedPrefix(lines, ContentTag, n);
      BodySoFarPrefix(lines, FirstTagged(lines, ContentTag), n);
      BodyStep(lines, FirstTagged(lines, ContentTag), n);
    }
  }

  /** The parser as the source writes it: the loop over the stripped
      reply's lines with its `parse_content` flag. */
  method ParseReply(reply: string) returns (title: string, subTitle: string, body: string)
    ensures title == TaggedValue(ReplyLines(reply), TitleTag)
    ensures subTitle == TaggedValue(ReplyLines(reply), SubTitleTag)
    ensures body == ReplyBody(reply)
  {
    var lines := Split(Strip(reply), '\n');
    title, subTitle, body := "", "", "";
    var parseContent := false;
    for i := 0 to |lines|
      invariant ParseState(title, subTitle, body, parseContent) == ParseLines(lines[..i])
    {
      ghost var before := ParseState(title, subTitle, body, parseContent);
      var line := Strip(lines[i]);
      if StartsWith(line, TitleTag) {
        title := Strip(Replace(line, TitleTag, ""));
      } else if StartsWith(line, SubTitleTag) {
        subTitle := Strip(Replace(line, SubTitleTag, ""));
      } else if StartsWith(line, ContentTag) {
        parseContent := true;
      } else if parseContent && line != "" {
        body := body + line + "\n";
      }
      assert ParseState(title, subTitle, body, parseContent) == ParseLine(before, lines[i]);
      ParseLinesPrefix(lines, i);
    }
    assert lines[..|lines|] == lines;
    ParseReplyMeaning(reply);
  }

  /** What the parser holds after the whole reply: the last title, the
      last sub-title, and the body lines after the first "Content:". */
  lemma ParseReplyMeaning(reply: string)
    ensures ParseLines(ReplyLines(reply)).title == TaggedValue(ReplyLines(reply), TitleTag)
    ensures ParseLines(ReplyLines(reply)).subTitle == TaggedValue(ReplyLines(reply), SubTitleTag)
    ensures ParseLines(ReplyLines(reply)).body == ReplyBody(reply)
  {
    ParseLinesFields(ReplyLines(reply));
    ParseLinesWholeBody(ReplyLines(reply));
  }

  /** After all the lines, the body is the body lines after the first
      "Content:" line, or "" when there is none. */
  lemma ParseLinesWholeBody(lines: seq<string>)
    ensures ParseLines(lines).body ==
      var c := FirstTagged(lines, ContentTag);
      if c == |lines| then "" else Unlines(BodyLines(lines[c + 1..]))
  {
    ParseLinesBody(lines);
    var c := FirstTagged(lines, ContentTag);
    if c < |lines| {
      assert lines[c + 1..|lines|] == lines[c + 1..];
    }
  }

  /** `Unlines` and `split('\n')` are inverse: splitting the body at its
      newlines gives back its lines and a final "" (the text after the
      last "\n"), provided no line holds a newline itself. */
  lemma {:induction false} SplitUnlines(xs: seq<string>)
    requires forall i | 0 <= i < |xs| :: '\n' !in xs[i]
    ensures Split(Unlines(xs), '\n') == xs + [""]
    decreases |xs|
  {
    if xs == [] {
      assert Split("", '\n') == [""];
    } else {
      var tail := xs[1..];
      assert forall i | 0 <= i < |tail| :: tail[i] == xs[i + 1];
      SplitUnlines(tail);
      var u := Unlines(tail);
      assert Unlines(xs) == xs[0] + ['\n'] + u;
      SplitCons(xs[0], '\n', u);
      assert [xs[0]] + (tail + [""]) == xs + [""];
    }
  }

  /** Every body line is non-blank and, coming from a line of a split at
      '\n', holds no newline. */
  lemma {:induction false} BodyLinesAreNonBlank(lines: seq<string>)
    requires forall i | 0 <= i < |lines| :: '\n' !in lines[i]
    ensures forall i | 0 <= i < |BodyLines(lines)| :: BodyLines(lines)[i] != "" && '\n' !in BodyLines(lines)[i]
    decreases |lines|
  {
    if lines != [] {
      var tail := lines[1..];
      assert forall i | 0 <= i < |tail| :: tail[i] == lines[i + 1];
      BodyLinesAreNonBlank(tail);
      var head: seq<string> := if IsBodyLine(lines[0]) then [Strip(lines[0])] else [];
      assert BodyLines(lines) == head + BodyLines(tail);
      assert forall i | 0 <= i < |head| :: head[i] == Strip(lines[0]) && head[i] != "" && '\n' !in head[i];
    }
  }

  /** Each line followed by "\n": the text is "" or ends in "\n". */
  lemma {:induction false} UnlinesEnds(xs: seq<string>)
    ensures Unlines(xs) == "" || EndsWith(Unlines(xs), "\n")
    decreases |xs|
  {
    if xs != [] {
      var u := Unlines(xs[1..]);
      UnlinesEnds(xs[1..]);
      if u == "" {
        assert Unlines(xs) == xs[0] + "\n";
        Affixes(xs[0], [], "\n");
        assert xs[0] + [] + "\n" == xs[0] + "\n";
      } else {
        var w := xs[0] + "\n";
        assert Unlines(xs) == w + u;
        assert (w + u)[|w + u| - 1..] == u[|u| - 1..];
      }
    }
  }

  /** Lines without newlines, each followed by "\n": the text is "" or
      ends in "\n", and cutting it at its newlines gives the lines back. */
  lemma UnlinesShape(xs: seq<string>)
    requires forall i | 0 <= i < |xs| :: '\n' !in xs[i]
    ensures Unlines(xs) == "" || EndsWith(Unlines(xs), "\n")
    ensures Split(Unlines(xs), '\n') == xs + [""]
  {
    SplitUnlines(xs);
    UnlinesEnds(xs);
  }

  /** The parsed body is "" or ends in "\n", and it holds no blank line:
      cut at its newlines, every piece before the final "" is a non-blank
      line of the reply. */
  lemma BodyHasNoBlankLines(reply: string)
    ensures ReplyBody(reply) == "" || EndsWith(ReplyBody(reply), "\n")
    ensures forall i | 0 <= i < |Split(ReplyBody(reply), '\n')| - 1 :: Split(ReplyBody(reply), '\n')[i] != ""
  {
    var lines := ReplyLines(reply);
    var c := FirstTagged(lines, ContentTag);
    if c < |lines| {
      var rest := lines[c + 1..];
      assert forall i | 0 <= i < |rest| :: rest[i] == lines[c + 1 + i];
      BodyLinesAreNonBlank(rest);
      UnlinesShape(BodyLines(rest));
    } else {
      assert Split("", '\n') == [""];
    }
  }

  /** Where the analysis is written: "analysis/" + the image key's last
      '/'-separated segment (its basename) without its extension + ".json",
      directly under the "analysis/" folder. */
  function OutputKey(key: string): (outKey: string)
    ensures StartsWith(outKey, AnalysisPrefix) && EndsWith(outKey, JsonSuffix)
    ensures '/' !in outKey[|AnalysisPrefix|..]
    ensures outKey == AnalysisPrefix + SplitExt(Basename(key)).0 + JsonSuffix
  {
    var segments := Split(key, '/');
    LastSegmentIsBasename(key);
    var name := segments[|segments| - 1];
    assert name == Basename(key) && '/' !in name;
    var stem := SplitExt(name).0;
    StemHasNoSlash(name);
    Affixes(AnalysisPrefix, stem, JsonSuffix);
    JsonSuffixHasNoSlash();
    assert '/' !in stem + JsonSuffix;
    AnalysisPrefix + stem + JsonSuffix
  }

  /** The JSON object the handler writes. */
  datatype Analysis = Analysis(
    image: string,
    labels: seq<Label>,
    celebrities: seq<CelebrityEntry>,
    articleTitle: string,
    articleSubtitle: string,
    articleContent: string,
    articleCategory: string)

  /** `lambda_handler` for one S3 event: returns the key and body of the
      object it puts, and the keyword string it sends to OpenAI. */
  method Handle(key: string, labels: seq<Label>, faces: seq<CelebrityFace>, pick: nat, reply: string)
    returns (outKey: string, analysis: Analysis, keywords: string)
    requires pick < |Categories|
    ensures outKey == OutputKey(key)
    ensures analysis.image == key && analysis.labels == labels
    ensures |analysis.celebrities| == |faces|
    ensures forall i | 0 <= i < |faces| :: analysis.celebrities[i] == EntryFor(faces[i])
    ensures keywords == Keywords(CelebrityNames(faces) + LabelNames(labels))
    ensures analysis.articleCategory == Categories[pick]
    ensures analysis.articleTitle == TaggedValue(ReplyLines(reply), TitleTag)
    ensures analysis.articleSubtitle == TaggedValue(ReplyLines(reply), SubTitleTag)
    ensures analysis.articleContent == ReplyBody(reply)
  {
    var celebrities := CelebrityEntries(faces);
    var items := KeywordList(celebrities, labels);
    assert items == CelebrityNames(faces) + LabelNames(labels);
    keywords := Keywords(items);
    var category := ChooseCategory(pick);
    var title, subTitle, body := ParseReply(reply);
    analysis := Analysis(key, labels, celebrities, title, subTitle, body, category);
    outKey := OutputKey(key);
  }
}

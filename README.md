# Pixel8: a Dafny model of the upload-to-article pipeline

Pixel8 turns a photo into a newspaper-style article. The user picks an
image on a React landing page, gives consent and starts processing. The
page posts the image and then moves to an article page, which has its own
file picker. An upload script (server/ for the command line, service/ for
the Flask app) checks the image and stores it in an S3 bucket under a
sanitized, timestamped name. An S3-triggered Lambda asks Rekognition for
labels and celebrities, asks OpenAI for an article, parses the reply and
writes the analysis as JSON under `analysis/`. The command-line uploader
then polls for that JSON. An older Lambda does the same with a simpler
reply layout.

This project models that core in Dafny and proves what each step
promises:

- the file check both pages run, and the two pages' state machines (as
  classes whose methods update the page's state);
- the Lambdas' append loops, keyword string, category draw, reply parsers
  and output keys;
- the uploaders' image check, file-name sanitizing, analysis key, retry
  loop and result records;
- the property that ties them together: the key the uploader polls is the
  key the article generator writes.

Python's own string rules are written out in `pystr.dfy`:

- `str.strip`, with CPython's whitespace set;
- `split` with one separator, and `join`;
- `replace`, `startswith`, `endswith`, `rfind`;
- POSIX `os.path.basename` and `os.path.splitext`, including the rule
  that leading dots of a name never start an extension.

Files and modules:

| file | module | models |
|---|---|---|
| `wrappers.dfy` | `Wrappers` | `Option`, `Result` |
| `pystr.dfy` | `PyStr` | the Python `str` / `os.path` operations listed above |
| `file_check.dfy` | `FileCheck` | the format-then-size check of both pages |
| `landing_page.dfy` | `Landing` | src/pages/LandingPage.jsx |
| `article_page.dfy` | `Article` | src/pages/ArticlePage.jsx |
| `rekognition.dfy` | `Rekognition` | the celebrity and keyword loops both Lambdas share |
| `article_generator.dfy` | `ArticleGenerator` | lambda/lambda_function_detection_articlegenerator.py |
| `celebrity_detection.dfy` | `CelebrityDetection` | lambda/lambda_function_facial_celebrity_detection.py |
| `s3_layout.dfy` | `S3Layout` | bucket name, `analysis/` folder, `.json` suffix |
| `upload_names.dfy` | `UploadNames` | `is_valid_image`, `sanitize_filename`, analysis key, URL (same in both scripts) |
| `server_upload.dfy` | `ServerUpload` | server/load_image_service.py `load_image_to_s3` and its retry loop |
| `service_upload.dfy` | `ServiceUpload` | service/load_image_service.py `load_image_to_s3` |

External events and effects are inputs to the model:

- The interval's firings, the upload's outcome and the file input's
  changes are method calls.
- Rekognition's answers, OpenAI's reply, the `random.choice` position,
  the `datetime.now()` timestamp, `os.path.isfile`/`getsize`, the
  exception from `upload_file` and the answers `get_analysis_json` gets
  are parameters.

Where one might expect otherwise, the model follows the code:

- Picking a new file does not reset the consent checkbox.
- The progress bar is simulated. It climbs 5 per tick to 100 *before*
  anything is posted; it is not driven by bytes sent and is not capped
  at 95.
- A failed upload only clears `isLoading`. The file, consent, progress
  and message stay, and no error message is shown.
- The navigation state carries only the image and `fromUpload: true`,
  not the analysis.
- Both pages use a 10 MB ceiling.

## Model

| member | source | states |
|---|---|---|
| FileCheck.Validate | src/pages/LandingPage.jsx:19-33 | Rejected for format exactly when the MIME type is not jpeg/jpg/png, whatever the size. Rejected for size exactly when the format is fine and the size exceeds 10·1024·1024 bytes. Accepted otherwise, so 10485760 bytes passes. |
| FileCheck.ErrorText | src/pages/LandingPage.jsx:24-35 | The message is cleared exactly for an accepted file. |
| FileCheck.ErrorTextDistinguishes | src/pages/LandingPage.jsx:24-30 | Different verdicts show different messages. |
| FileCheck.CeilingIsInclusive | src/pages/LandingPage.jsx:20-29 | 10485760 bytes is accepted; 10485761 is rejected for size. |
| Landing.ProgressAfterTicks | src/pages/LandingPage.jsx:43-90 | From 0, n ticks give 5·n up to 100, then 100 for good. The tick that sees 100 (the 21st) is the first to start the upload. The bar never decreases. |
| Landing.ProgressText | src/pages/LandingPage.jsx:106-112 | Each of the five texts is shown exactly on its band [0,25), [25,50), [50,75), [75,100), ≥100; each band includes its lower bound. |
| Landing.Stage | src/pages/LandingPage.jsx:106-112 | The text shown is the k-th of the five texts in order. |
| Landing.StageMonotonic | src/pages/LandingPage.jsx:106-112 | As progress grows, the text only moves forward through the list. |
| Landing.ControlsFollowState | src/pages/LandingPage.jsx:202-225 | The start button is shown only together with the consent box. A visible start button always passes `handleStartLoading`'s guard. While the overlay is up, neither control is shown. |
| Landing.LandingPage.constructor | src/pages/LandingPage.jsx:8-12 | Initial state: no file, no message, not loading, progress 0, consent unchecked, no interval, nothing posted or pending. |
| Landing.LandingPage.HandleFileChange | src/pages/LandingPage.jsx:17-38 | No pick changes nothing. Otherwise the message is the verdict's, `file` becomes the pick if accepted and null if not. Consent, loading and progress are untouched. The interval is re-armed only when `file` changed. |
| Landing.LandingPage.HandleConsentChange | src/pages/LandingPage.jsx:114-116 | Consent becomes the box's state; nothing else changes except the interval re-arming on a change. |
| Landing.LandingPage.HandleStartLoading | src/pages/LandingPage.jsx:118-122 | Loading starts exactly when consent is given and a file is present; otherwise nothing changes. Starting arms the interval. |
| Landing.LandingPage.Tick | src/pages/LandingPage.jsx:40-92 | Below 100 the bar rises by 5. At 100 it stays, the interval is cleared and exactly one upload is posted, carrying the current `file`; it is added to the posted uploads and marked pending. No other field changes. Nothing happens without a running interval. |
| Landing.LandingPage.UploadSucceeded | src/pages/LandingPage.jsx:48-78 | The answer to pending upload `i`: it is no longer pending, loading ends and progress returns to 0. The page navigates to /article-page with the file that upload posted and `fromUpload: true`. If that upload posted no file, `URL.createObjectURL(null)` throws and no navigation happens. File, consent and message are unchanged. |
| Landing.LandingPage.UploadFailed | src/pages/LandingPage.jsx:79-82 | The failure of pending upload `i`: it is no longer pending and loading ends. Progress, file, consent, message and navigation are unchanged. |
| Landing.HappyPath | src/pages/LandingPage.jsx:17-122 | From a fresh page with an accepted file, consent and start, tick number 21 (index 20) and no other posts the image. At most one upload is ever started, and it carries the picked file. The bar follows `ProgressAfter`. Once that upload succeeds, the page navigates to /article-page with the picked file and `fromUpload: true`. |
| Article.ArticlePicker.constructor | src/pages/ArticlePage.jsx:8-10 | Initial state is empty and satisfies the picker invariant. |
| Article.ArticlePicker.HandleFileChange | src/pages/ArticlePage.jsx:12-36 | No pick leaves all three fields. A rejected pick sets its message and clears `file` and `fileName`. An accepted pick clears the message and sets `file` and `fileName` to the file and its name. The invariant (`fileName` follows `file`; a held file has no message) is preserved. |
| Article.LastPick | src/pages/ArticlePage.jsx:12-17 | The last pick that carried a file is one of the picks. |
| Article.AfterPicks | src/pages/ArticlePage.jsx:8-36 | After any series of picks the state satisfies the invariant and depends only on the last pick that carried a file. |
| Rekognition.EntryFor | lambda/lambda_function_detection_articlegenerator.py:44-48 | A face's entry carries its name and match confidence, and its `Urls`, or [] when it has none. |
| Rekognition.CelebrityEntries | lambda/lambda_function_detection_articlegenerator.py:43-48 | One entry per recognised face, in order, each `EntryFor` that face. |
| Rekognition.KeywordList | lambda/lambda_function_detection_articlegenerator.py:79-84 | The keyword items are every celebrity name in order, then every label name in order; their count is the sum of the two. |
| Rekognition.KeywordsShape | lambda/lambda_function_detection_articlegenerator.py:86 | `", ".join` gives "" for no items and the item for one. Each further item adds ", " and itself at the end, so there is no trailing separator. |
| ArticleGenerator.ChooseCategory | lambda/lambda_function_detection_articlegenerator.py:94-95 | The drawn category is one of the seven listed. |
| ArticleGenerator.TagsExclusive | lambda/lambda_function_detection_articlegenerator.py:142-147 | No line starts with two of the three tags, so the order of the `elif` chain never decides between them. |
| ArticleGenerator.ParseLinesFields | lambda/lambda_function_detection_articlegenerator.py:140-145 | The title is "" when no stripped line starts with "Title:". Otherwise it is the last such line with every "Title:" removed, then stripped. The same holds for "Sub-title:". |
| ArticleGenerator.ParseLineFlag | lambda/lambda_function_detection_articlegenerator.py:146-147 | One turn of the loop raises `parse_content` exactly on a line whose stripped text starts with "Content:", and never lowers it. |
| ArticleGenerator.ParseLinesFlag | lambda/lambda_function_detection_articlegenerator.py:138-147 | The `parse_content` flag is up exactly once a "Content:" line has been read. |
| ArticleGenerator.ParseLinesBody | lambda/lambda_function_detection_articlegenerator.py:146-149 | The body is "" until the first "Content:" line, whose own text is dropped. After it, every non-blank stripped line carrying none of the three tags, each followed by "\n", makes up the body. |
| ArticleGenerator.ParseLinesWholeBody | lambda/lambda_function_detection_articlegenerator.py:138-149 | Once every line is read, the body is "" when no line is a "Content:" line; otherwise it is the body lines after the first one, joined with "\n" after each. |
| ArticleGenerator.ParseReplyMeaning | lambda/lambda_function_detection_articlegenerator.py:134-149 | Over the reply's stripped lines, the parser ends with the last title, the last sub-title and the body lines after the first "Content:". |
| ArticleGenerator.ParseReply | lambda/lambda_function_detection_articlegenerator.py:134-155 | The parser loop returns the title, sub-title and body just described. |
| ArticleGenerator.BodyHasNoBlankLines | lambda/lambda_function_detection_articlegenerator.py:148-149 | The body is "" or ends in "\n". Cut at its newlines, every piece before the final "" is non-blank. |
| ArticleGenerator.OutputKey | lambda/lambda_function_detection_articlegenerator.py:59-60 | The key is "analysis/" + the key's last '/'-segment without its extension + ".json". No '/' follows the folder. |
| ArticleGenerator.Handle | lambda/lambda_function_detection_articlegenerator.py:19-67 | The object written holds the image key, the labels, one entry per face, the parsed title, sub-title and body, and the drawn category. Its key is `OutputKey`. The keywords sent are the celebrity names then the label names, joined by ", ". |
| PyStr.Strip | lambda/lambda_function_detection_articlegenerator.py:141 | `str.strip()` gives a text that neither starts nor ends with whitespace, made of characters of the input. |
| PyStr.StripInfix | lambda/lambda_function_detection_articlegenerator.py:141 | The stripped text is the infix right after the leading whitespace, and everything after it is whitespace. |
| PyStr.LastSegmentIsBasename | lambda/lambda_function_detection_articlegenerator.py:59 | `key.split('/')[-1]` is the text after the last '/'. |
| PyStr.SplitExt | lambda/lambda_function_detection_articlegenerator.py:59 | `os.path.splitext` cuts a path into a stem and an extension that concatenate back to it. The extension is empty or a '.' followed by neither '.' nor '/'. Where it cuts is stated by `ExtensionStart`. |
| PyStr.ExtensionStart | lambda/lambda_function_detection_articlegenerator.py:59 | `os.path.splitext` cuts at the last '.' exactly when that '.' lies after the last '/' and the last segment holds something other than dots before it; otherwise there is no extension (-1). From the cut the rest is a '.' followed by neither '.' nor '/'. |
| PyStr.ExtensionStartInFolder | lambda/lambda_function_detection_articlegenerator.py:59 | Putting a folder part ending in '/' in front of a '/'-free name moves the cut by the folder's length, or leaves it absent. |
| PyStr.SplitExtInFolder | server/load_image_service.py:25 | `splitext` of folder + name is the folder followed by the name's stem, and the name's extension. |
| PyStr.SplitExtOfPlain | server/load_image_service.py:39 | For a name without '/', `splitext` finds no extension exactly when the name has no '.' or only dots before its last '.', as in ".png". |
| CelebrityDetection.SplitTitle | lambda/lambda_function_facial_celebrity_detection.py:109-113 | The unpack succeeds exactly when the reply holds a newline. The title is the stripped text before the first newline and holds no newline. The content is the stripped rest. |
| CelebrityDetection.SplitTitleRoundTrip | lambda/lambda_function_facial_celebrity_detection.py:109-113 | A reply "title\narticle" with a one-line title gives back the stripped title and article, whatever newlines the article holds. |
| CelebrityDetection.OutputKey | lambda/lambda_function_facial_celebrity_detection.py:51 | The key is "analysis/" + the key's basename, extension kept, + ".json". |
| CelebrityDetection.OutputKeysAgreeIffNoExtension | lambda/lambda_function_facial_celebrity_detection.py:51 | This Lambda and the article generator write the same key exactly when the image name has no extension. |
| CelebrityDetection.Handle | lambda/lambda_function_facial_celebrity_detection.py:13-62 | A reply without a newline stops the handler before it writes. Otherwise it writes, under `OutputKey`, the image key, the labels, one entry per face and the split title and content. The keywords are as in the article generator. |
| UploadNames.FileExtension | server/load_image_service.py:25 | The checked extension has no '.' or '/'. It is one character shorter than the `splitext` extension, or empty when that is empty. |
| UploadNames.FileExtensionOfName | server/load_image_service.py:25 | For a '/'-free name "stem.ext" whose stem is not all dots (".bashrc.png" included) and whose `ext` holds neither '.' nor '/', the checked extension is `ext` lower-cased. |
| UploadNames.FileExtensionInFolder | server/load_image_service.py:25 | The folders in front of a name do not change the checked extension. |
| UploadNames.FileExtensionOfPath | service/load_image_service.py:21 | For a path folder/"stem.ext" as above, the checked extension is `ext` lower-cased. |
| UploadNames.FileExtensionWithoutDot | server/load_image_service.py:25 | A path without '.' has the empty extension, which the allowed list refuses. |
| UploadNames.SizeCeiling | server/load_image_service.py:30-33 | bytes / 1048576 > 10 exactly when bytes > 10485760. |
| UploadNames.CheckImage | server/load_image_service.py:20-35 | A missing file is refused before anything else. Then an extension outside {png, jpg, jpeg} is refused, naming it. Then a size over 10485760 bytes is refused. Otherwise the image is valid. |
| UploadNames.SanitizedBase | server/load_image_service.py:40 | The stem is lower-cased with every space turned into "_", length kept, and holds no space. |
| UploadNames.SanitizeFilename | server/load_image_service.py:38-42 | The name is the sanitized stem, then "_" + timestamp + the original extension, case kept. Its length is the original's plus 1 plus the timestamp's. |
| UploadNames.SanitizedHasNoSlash | server/load_image_service.py:38-42 | A sanitized basename holds no '/'. |
| UploadNames.SanitizedKeepsExtension | server/load_image_service.py:38-42 | `splitext` of the sanitized name gives the sanitized stem + "_" + timestamp, and the original extension. This covers names that have dots but no extension. |
| UploadNames.SplitExtAfterStem | server/load_image_service.py:47 | A '/'-free stem that does not end in '.', followed by an extension, is cut by `splitext` right before that extension. |
| UploadNames.AnalysisKey | server/load_image_service.py:45-48 | The polled key is "analysis/" + the name's stem + ".json": it starts with "analysis/", ends with ".json", and what lies between is the `splitext` stem of the name. |
| UploadNames.ObjectUrl | server/load_image_service.py:75 | The URL is the bucket's public prefix followed by the object name. |
| UploadNames.ObjectUrlNamesObject | service/load_image_service.py:56 | The URL's last segment is the object name. |
| ServerUpload.FetchAnalysis | server/load_image_service.py:78-87 | Between 1 and 10 lookups. The loop stops at the first truthy answer; every earlier answer was falsy. The count is the first truthy position + 1, or 10 when none of the first ten is truthy. |
| ServerUpload.LoadImageToS3 | server/load_image_service.py:61-105 | An invalid image gives "Upload failed" / "Invalid image format or size." with the original basename, and no upload or lookup. A failed upload gives "Upload failed" with the exception text. Otherwise the record is "Upload successful" with the sanitized name and its URL. Its analysis is the first truthy answer among ten lookups, or the fixed note. |
| ServerUpload.PolledKeyIsWrittenKey | server/load_image_service.py:45-48 | The key the uploader polls is the key the article-generator Lambda writes for the object it uploaded. |
| ServerUpload.PolledKeySpelledOut | server/load_image_service.py:45-48 | That key is "analysis/" + sanitized stem + "_" + timestamp + ".json". |
| ServiceUpload.LoadImageToS3 | service/load_image_service.py:44-62 | A refused image is never uploaded. A valid one is uploaded under its sanitized basename. The result is `None` exactly when the image is refused or the upload raises. Otherwise it is the URL of the uploaded object: the bucket prefix followed by the sanitized basename. |
| ServiceUpload.UrlNamesUpload | service/load_image_service.py:50-58 | For a valid image and a successful upload, the URL's last segment is the sanitized file name. |

## Left out

- PyStr.Lower: it lower-cases ASCII letters only. Python's `str.lower` also maps non-ASCII letters, some to two characters. `UploadNames.SanitizedBase` and `UploadNames.FileExtension` inherit this.
- Unicode handling in general: strings are sequences of code points, with no normalisation. S3 event notifications deliver object keys URL-encoded (a space arrives as "+"); the Lambda models take the key as given. `ServerUpload.PolledKeyIsWrittenKey` therefore covers names that URL-encoding leaves unchanged.
- Remote services are parameters:
  - Rekognition (`detect_labels`, `recognize_celebrities`), OpenAI over `urllib`, and S3 (`upload_file`, `get_object`, `put_object`).
  - The prompt texts and request headers are not modelled.
  - The draw of `random.choice` is an index, and `datetime.now()` is a timestamp string.
- The facial Lambda's prompt: on line 85 its single-quoted f-string ends at the apostrophe of "it's", so that file does not parse as Python as written. The model describes the handler as if the literal were quoted correctly.
- Timing: `setInterval` (150 ms), `setTimeout` (500 ms) and `time.sleep(6)` are left out. Ticks and upload answers are discrete events.
- Browser APIs: `fetch`, `URL.createObjectURL` and `navigate`. The navigation state carries the file itself rather than an object URL.
- React effect scheduling is approximated by Landing.IntervalAfter: a handler re-arms the interval when it changes one of the effect's dependencies. File identity is approximated by value equality.
- Logging: the `print` and `console` calls.
- Floating point: Rekognition's confidences are opaque reals. `os.path.getsize(...) / (1024 * 1024)` is computed on reals; below 2^53 bytes the quotient is exact, and beyond that it is correctly rounded. Rounding is monotone and 10.0 is exact, so the comparison with 10 is the same as on reals for every size.
- Script entry points: the `main` functions with `argparse`.
- The Flask route (service/server.py) is not part of this model.
- lambda/lambda_function.py is not part of this model. Its only computed value, the output key, is the same as the facial Lambda's.
- Presentation: the window-resize listener, the markup, the routing shell, the header and footer components, and the styling.
- PDF export: the article page's Download button has no handler in this code.

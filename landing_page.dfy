/**
 * The landing page (src/pages/LandingPage.jsx): the user picks an image,
 * ticks the consent box, presses "Start Processing Image"; an interval
 * then advances a simulated progress bar by 5 per tick up to 100, and the
 * tick that finds the bar at 100 stops the interval and posts the image.
 * A successful post returns the page to rest and navigates to the
 * article page; a failed one only ends the loading state.
 *
 * Timers, `fetch` and navigation are events here: `Tick` is one firing of
 * the interval, `UploadSucceeded` a successful response followed by the
 * 500 ms timeout, `UploadFailed` a rejected or non-OK response. Each
 * upload closure captured the `file` of the render that armed its
 * interval; the page keeps those files, in posting order, in `posted`, and
 * a response names the upload it answers by its index there.
 */
module Landing {
  import opened Wrappers
  import opened FileCheck

  /** The state handed to the article page by `navigate`: the route, the
      image behind `imageUrl` and the `fromUpload` flag. */
  datatype Navigation = Navigation(route: string, image: ImageFile, fromUpload: bool)

  const ArticleRoute: string := "/article-page"

  /** The increment of one tick and the value at which the upload starts. */
  const Step: int := 5
  const Full: int := 100

  /** The `setProgress` updater run by every tick of the interval. */
  function NextProgress(prev: int): int {
    if prev >= Full then Full else prev + Step
  }

  /** The tick that sees this previous value clears the interval and starts the upload. */
  predicate StartsUpload(prev: int) {
    prev >= Full
  }

  /** The progress bar after `n` ticks of a fresh interval started at 0. */
  function ProgressAfter(n: nat): int {
    if n == 0 then 0 else NextProgress(ProgressAfter(n - 1))
  }

  /** From 0 the bar climbs by 5 per tick, reaches 100 after exactly 20
      ticks, and stays there; so the upload starts on the 21st tick and on
      no earlier one. */
  lemma {:induction false} ProgressAfterTicks(n: nat)
    ensures ProgressAfter(n) == if n <= 20 then Step * n else Full
    ensures StartsUpload(ProgressAfter(n)) <==> n >= 20
    ensures ProgressAfter(n) <= ProgressAfter(n + 1)
  {
    if n > 0 {
      ProgressAfterTicks(n - 1);
    }
  }

  /** The text under the progress bar. Each band includes its lower bound. */
  function ProgressText(progress: int): (text: string)
    ensures text == "Crafting your article..." <==> progress < 25
    ensures text == "Unlocking the story..." <==> 25 <= progress < 50
    ensures text == "Spilling the digital ink..." <==> 50 <= progress < 75
    ensures text == "Hold tight! Your article is almost here..." <==> 75 <= progress < 100
    ensures text == "Complete!" <==> progress >= 100
  {
    if progress < 25 then "Crafting your article..."
    else if progress < 50 then "Unlocking the story..."
    else if progress < 75 then "Spilling the digital ink..."
    else if progress < 100 then "Hold tight! Your article is almost here..."
    else "Complete!"
  }

  /** The five texts in the order the bar reaches them. */
  const ProgressTexts: seq<string> := [
    "Crafting your article...",
    "Unlocking the story...",
    "Spilling the digital ink...",
    "Hold tight! Your article is almost here...",
    "Complete!"
  ]

  /** The position of a progress value's text in `ProgressTexts`. */
  function Stage(progress: int): (k: nat)
    ensures k < |ProgressTexts| && ProgressTexts[k] == ProgressText(progress)
  {
    if progress < 25 then 0
    else if progress < 50 then 1
    else if progress < 75 then 2
    else if progress < 100 then 3
    else 4
  }

  /** As the bar fills, the text only ever moves forward through the list. */
  lemma StageMonotonic(p: int, q: int)
    requires p <= q
    ensures Stage(p) <= Stage(q)
  {
  }

  /** `{isLoading && ...}`: the overlay with the bar and its text. */
  predicate ShowsOverlay(isLoading: bool) {
    isLoading
  }

  /** `{file && !isLoading && ...}`: the consent checkbox. */
  predicate ShowsConsentBox(file: Option<ImageFile>, isLoading: bool) {
    file.Some? && !isLoading
  }

  /** `{file && isConsentChecked && !isLoading && ...}`: the start button. */
  predicate ShowsStartButton(file: Option<ImageFile>, isConsentChecked: bool, isLoading: bool) {
    file.Some? && isConsentChecked && !isLoading
  }

  /** `handleStartLoading`'s own guard. */
  predicate StartAdmitted(file: Option<ImageFile>, isConsentChecked: bool) {
    isConsentChecked && file.Some?
  }

  /** The start button appears only beside the consent box, pressing a
      visible button always passes the handler's guard, and while the
      overlay is up neither control is on screen (which is what keeps a
      second upload from being requested). */
  lemma ControlsFollowState(file: Option<ImageFile>, isConsentChecked: bool, isLoading: bool)
    ensures ShowsStartButton(file, isConsentChecked, isLoading) ==> ShowsConsentBox(file, isLoading)
    ensures ShowsStartButton(file, isConsentChecked, isLoading) ==> StartAdmitted(file, isConsentChecked)
    ensures ShowsOverlay(isLoading) ==> !ShowsConsentBox(file, isLoading) && !ShowsStartButton(file, isConsentChecked, isLoading)
  {
  }

  /** React re-runs the interval effect (deps `isLoading`, `file`,
      `isConsentChecked`) after a render in which one of them changed: the
      cleanup clears the running interval, and a new one starts when the
      page is loading with consent. Otherwise the interval is left as is. */
  function IntervalAfter(depsChanged: bool, running: bool, isLoading: bool, isConsentChecked: bool): bool {
    if depsChanged then isLoading && isConsentChecked else running
  }

  class LandingPage {
    var file: Option<ImageFile>
    var error: string
    var isLoading: bool
    var progress: int
    var isConsentChecked: bool
    /** Whether an interval started by the effect is still scheduled. */
    var intervalRunning: bool
    /** The `file` each upload carried in its form data, in posting order. */
    var posted: seq<Option<ImageFile>>
    /** The indices in `posted` of the uploads not yet answered. */
    var pending: set<nat>
    /** Where the page navigated to, once it has. */
    var navigation: Option<Navigation>

    /** The bar always shows a multiple of 5 between 0 and 100, an
        interval only runs while the page is loading with consent, and
        every unanswered upload is one that was posted. */
    ghost predicate Valid()
      reads this
    {
      && 0 <= progress <= Full
      && progress % Step == 0
      && (intervalRunning ==> isLoading && isConsentChecked)
      && (forall i | i in pending :: i < |posted|)
    }

    /** The initial `useState` values. */
    constructor ()
      ensures Valid()
      ensures file == None && error == "" && !isLoading && progress == 0 && !isConsentChecked
      ensures !intervalRunning && pending == {} && navigation == None
      ensures posted == []
    {
      file := None;
      error := "";
      isLoading := false;
      progress := 0;
      isConsentChecked := false;
      intervalRunning := false;
      posted := [];
      pending := {};
      navigation := None;
    }

    /** `handleFileChange`: nothing happens when no file was picked; a
        rejected file clears `file` and shows its message; an accepted one
        clears the message and becomes `file`. Consent is left as it is. */
    method HandleFileChange(picked: Option<ImageFile>)
      requires Valid()
      modifies this
      ensures Valid()
      ensures picked.None? ==> file == old(file) && error == old(error)
      ensures picked.Some? ==> error == ErrorText(Validate(picked.value))
      ensures picked.Some? ==> file == if Validate(picked.value) == Accepted then picked else None
      ensures isLoading == old(isLoading) && progress == old(progress)
      ensures isConsentChecked == old(isConsentChecked)
      ensures pending == old(pending) && navigation == old(navigation) && posted == old(posted)
      ensures intervalRunning == IntervalAfter(file != old(file), old(intervalRunning), isLoading, isConsentChecked)
    {
      if picked.Some? {
        var f := picked.value;
        var before := file;
        if f.mimeType !in ValidFormats {
          error := FormatError;
          file := None;
        } else if f.size > MaxSize {
          error := SizeError;
          file := None;
        } else {
          error := "";
          file := picked;
        }
        intervalRunning := IntervalAfter(file != before, intervalRunning, isLoading, isConsentChecked);
      }
    }

    /** `handleConsentChange`: the box's new checked state. */
    method HandleConsentChange(checked: bool)
      requires Valid()
      modifies this
      ensures Valid()
      ensures isConsentChecked == checked
      ensures file == old(file) && error == old(error) && isLoading == old(isLoading) && progress == old(progress)
      ensures pending == old(pending) && navigation == old(navigation) && posted == old(posted)
      ensures intervalRunning == IntervalAfter(checked != old(isConsentChecked), old(intervalRunning), isLoading, checked)
    {
      var changed := checked != isConsentChecked;
      isConsentChecked := checked;
      intervalRunning := IntervalAfter(changed, intervalRunning, isLoading, isConsentChecked);
    }

    /** `handleStartLoading`: loading starts only with consent and a file;
        otherwise nothing changes. Starting it starts a fresh interval. */
    method HandleStartLoading()
      requires Valid()
      modifies this
      ensures Valid()
      ensures isLoading == (old(isLoading) || StartAdmitted(file, isConsentChecked))
      ensures !old(isLoading) && StartAdmitted(file, isConsentChecked) ==> intervalRunning
      ensures old(isLoading) || !StartAdmitted(file, isConsentChecked) ==> intervalRunning == old(intervalRunning)
      ensures file == old(file) && error == old(error) && progress == old(progress)
      ensures isConsentChecked == old(isConsentChecked)
      ensures pending == old(pending) && navigation == old(navigation) && posted == old(posted)
    {
      if isConsentChecked && file.Some? {
        var changed := !isLoading;
        isLoading := true;
        intervalRunning := IntervalAfter(changed, intervalRunning, isLoading, isConsentChecked);
      }
    }

    /** One firing of the interval. Below 100 the bar moves up by 5; at 100
        it stays, the interval is cleared and exactly one upload is posted.
        With no interval running, nothing fires. */
    method Tick() returns (uploadStarted: bool)
      requires Valid()
      modifies this
      ensures Valid()
      ensures !old(intervalRunning) ==> !uploadStarted && progress == old(progress) && !intervalRunning
      ensures old(intervalRunning) ==> progress == NextProgress(old(progress))
      ensures uploadStarted <==> old(intervalRunning) && StartsUpload(old(progress))
      ensures intervalRunning == (old(intervalRunning) && !uploadStarted)
      ensures posted == old(posted) + (if uploadStarted then [file] else [])
      ensures pending == old(pending) + (if uploadStarted then {|old(posted)|} else {})
      ensures file == old(file) && error == old(error) && isLoading == old(isLoading)
      ensures isConsentChecked == old(isConsentChecked) && navigation == old(navigation)
    {
      uploadStarted := false;
      if intervalRunning {
        var prev := progress;
        if prev >= Full {
          intervalRunning := false;
          pending := pending + {|posted|};
          posted := posted + [file];
          uploadStarted := true;
        }
        progress := NextProgress(prev);
      }
    }

    /** A successful response to upload `i`, then the 500 ms timeout:
        loading ends and the bar returns to 0. The page then navigates with
        the image that upload posted and `fromUpload: true`; if it posted
        no file, `URL.createObjectURL(null)` throws and no navigation
        happens. */
    method UploadSucceeded(i: nat)
      requires Valid() && i in pending
      modifies this
      ensures Valid() && posted == old(posted)
      ensures !isLoading && progress == 0 && !intervalRunning
      ensures navigation == if posted[i].Some? then Some(Navigation(ArticleRoute, posted[i].value, true)) else old(navigation)
      ensures pending == old(pending) - {i}
      ensures file == old(file) && error == old(error) && isConsentChecked == old(isConsentChecked)
    {
      var uploaded := posted[i];
      pending := pending - {i};
      var changed := isLoading;
      isLoading := false;
      progress := 0;
      intervalRunning := IntervalAfter(changed, intervalRunning, isLoading, isConsentChecked);
      if uploaded.Some? {
        navigation := Some(Navigation(ArticleRoute, uploaded.value, true));
      }
    }

    /** A failed upload `i`: only `isLoading` is cleared; the bar, the file,
        the consent and the message stay as they were. */
    method UploadFailed(i: nat)
      requires Valid() && i in pending
      modifies this
      ensures Valid()
      ensures !isLoading && !intervalRunning
      ensures progress == old(progress) && file == old(file) && error == old(error)
      ensures isConsentChecked == old(isConsentChecked) && navigation == old(navigation)
      ensures pending == old(pending) - {i} && posted == old(posted)
    {
      pending := pending - {i};
      var changed := isLoading;
      isLoading := false;
      intervalRunning := IntervalAfter(changed, intervalRunning, isLoading, isConsentChecked);
    }
  }

  /** The happy path from a fresh page: pick an accepted file, tick the
      box, press start, then let the interval fire `ticks` times. Ticks
      1 to 20 only move the bar; tick 21 posts the one upload; later ticks
      do nothing because the interval is gone. The one upload carries `f`,
      and once it is answered successfully the page navigates with `f`. */
  method HappyPath(f: ImageFile, ticks: nat)
    returns (started: seq<bool>, finalProgress: int, postedFiles: seq<Option<ImageFile>>, navigation: Option<Navigation>)
    requires Validate(f) == Accepted
    ensures postedFiles == if ticks > 20 then [Some(f)] else []
    ensures |started| == ticks
    ensures forall k | 0 <= k < ticks :: started[k] <==> k == 20
    ensures finalProgress == ProgressAfter(ticks)
    ensures navigation == if ticks > 20 then Some(Navigation(ArticleRoute, f, true)) else None
  {
    var page := new LandingPage();
    page.HandleFileChange(Some(f));
    page.HandleConsentChange(true);
    page.HandleStartLoading();
    started := [];
    var n := 0;
    while n < ticks
      invariant 0 <= n <= ticks
      invariant page.Valid()
      invariant |started| == n
      invariant forall k | 0 <= k < n :: started[k] <==> k == 20
      invariant page.progress == ProgressAfter(n)
      invariant page.intervalRunning <==> n <= 20
      invariant page.pending == (if n > 20 then {0} else {})
      invariant page.file == Some(f)
      invariant page.posted == (if n > 20 then [Some(f)] else [])
      invariant page.navigation == None
    {
      ProgressAfterTicks(n);
      var s := page.Tick();
      started := started + [s];
      n := n + 1;
      ProgressAfterTicks(n);
    }
    finalProgress := page.progress;
    postedFiles := page.posted;
    if ticks > 20 {
      page.UploadSucceeded(0);
    }
    navigation := page.navigation;
  }
}

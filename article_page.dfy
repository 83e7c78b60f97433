/**
 * The file picker of the article page (src/pages/ArticlePage.jsx): the
 * same format-then-size check as the landing page, plus a `fileName`
 * field that follows the picked file.
 */
module Article {
  import opened Wrappers
  import opened FileCheck

  class ArticlePicker {
    var file: Option<ImageFile>
    var error: string
    var fileName: string

    /** `fileName` is "" exactly while no file is held and the held file's
        name otherwise; a held file never comes with an error message, and
        the message is always one the page sets. */
    ghost predicate Valid()
      reads this
    {
      && (file.None? ==> fileName == "")
      && (file.Some? ==> fileName == file.value.name && error == "")
      && (error == "" || error == FormatError || error == SizeError)
    }

    /** The initial `useState` values. */
    constructor ()
      ensures Valid()
      ensures file == None && error == "" && fileName == ""
    {
      file := None;
      error := "";
      fileName := "";
    }

    /** `handleFileChange`: nothing happens when no file was picked; a
        rejected file clears both `file` and `fileName` and shows its
        message; an accepted one clears the message and sets both. */
    method HandleFileChange(picked: Option<ImageFile>)
      requires Valid()
      modifies this
      ensures Valid()
      ensures picked.None? ==> file == old(file) && error == old(error) && fileName == old(fileName)
      ensures picked.Some? ==> error == ErrorText(Validate(picked.value))
      ensures picked.Some? && Validate(picked.value) != Accepted ==> file == None && fileName == ""
      ensures picked.Some? && Validate(picked.value) == Accepted ==> file == picked && fileName == picked.value.name
    {
      if picked.Some? {
        var f := picked.value;
        if f.mimeType !in ValidFormats {
          error := FormatError;
          file := None;
          fileName := "";
          return;
        }
        if f.size > MaxSize {
          error := SizeError;
          file := None;
          fileName := "";
          return;
        }
        error := "";
        file := picked;
        fileName := f.name;
      }
    }
  }

  /** The last pick in a series that actually carried a file, if any. */
  function LastPick(picks: seq<Option<ImageFile>>): (p: Option<ImageFile>)
    ensures p.Some? ==> p in picks
  {
    if picks == [] then None
    else if picks[|picks| - 1].Some? then picks[|picks| - 1]
    else LastPick(picks[..|picks| - 1])
  }

  /** A fresh article page after a series of file-input changes: its state
      keeps the picker's invariant and is decided by the last pick that
      carried a file alone, whatever came before it. */
  method AfterPicks(picks: seq<Option<ImageFile>>) returns (file: Option<ImageFile>, fileName: string, error: string)
    ensures file.None? ==> fileName == ""
    ensures file.Some? ==> fileName == file.value.name && error == ""
    ensures LastPick(picks).None? ==> file == None && fileName == "" && error == ""
    ensures LastPick(picks).Some? ==> error == ErrorText(Validate(LastPick(picks).value))
    ensures LastPick(picks).Some? ==> file == if Validate(LastPick(picks).value) == Accepted then LastPick(picks) else None
  {
    var page := new ArticlePicker();
    var i := 0;
    while i < |picks|
      invariant 0 <= i <= |picks|
      invariant page.Valid()
      invariant LastPick(picks[..i]).None? ==> page.file == None && page.error == ""
      invariant LastPick(picks[..i]).Some? ==> page.error == ErrorText(Validate(LastPick(picks[..i]).value))
      invariant LastPick(picks[..i]).Some? ==> page.file == if Validate(LastPick(picks[..i]).value) == Accepted then LastPick(picks[..i]) else None
    {
      page.HandleFileChange(picks[i]);
      assert picks[..i + 1][..i] == picks[..i];
      i := i + 1;
    }
    assert picks[..i] == picks;
    file, fileName, error := page.file, page.fileName, page.error;
  }
}

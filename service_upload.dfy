/**
 * The uploader of service/load_image_service.py, the one the Flask app
 * calls: the same image check and object name as the command-line
 * uploader, but it only uploads and hands back the object's public URL,
 * or `None`.
 *
 * `uploadError` is the exception `upload_file` raises, if any.
 */
module ServiceUpload {
  import opened Wrappers
  import opened PyStr
  import opened UploadNames

  /** What one call of `load_image_to_s3` did: the object name
      `upload_file` was called with, if it was called, and the returned
      URL or `None`. */
  datatype Outcome = Outcome(uploadedAs: Option<string>, url: Option<string>)

  /** `load_image_to_s3(image_file_path)`: a refused image is not uploaded
      and gives `None`; a valid one is uploaded under its sanitized
      basename, and the result is `None` if that upload raised and
      otherwise the object's public URL, the bucket's URL prefix followed
      by that name. */
  function LoadImageToS3(path: string, isFile: bool, size: nat, timestamp: string, uploadError: Option<string>): (r: Outcome)
    ensures !IsValidImage(path, isFile, size) ==> r.uploadedAs == None
    ensures IsValidImage(path, isFile, size) ==> r.uploadedAs == Some(SanitizeFilename(Basename(path), timestamp))
    ensures r.url.None? <==> !IsValidImage(path, isFile, size) || uploadError.Some?
    ensures r.url.Some? ==> r.uploadedAs.Some? && r.url.value == ObjectUrl(r.uploadedAs.value)
    ensures r.url.Some? ==> StartsWith(r.url.value, UrlPrefix)
    ensures r.url.Some? ==> r.url.value[|UrlPrefix|..] == SanitizeFilename(Basename(path), timestamp)
  {
    if !IsValidImage(path, isFile, size) then Outcome(None, None)
    else
      var originalFilename := Basename(path);
      var sanitizedFilename := SanitizeFilename(originalFilename, timestamp);
      if uploadError.Some? then Outcome(Some(sanitizedFilename), None)
      else Outcome(Some(sanitizedFilename), Some(ObjectUrl(sanitizedFilename)))
  }

  /** The returned URL names the uploaded object: its last path segment is
      the sanitized file name, lower-cased stem, timestamp and original
      extension. */
  lemma UrlNamesUpload(path: string, isFile: bool, size: nat, timestamp: string)
    requires IsValidImage(path, isFile, size) && '/' !in timestamp
    ensures var url := LoadImageToS3(path, isFile, size, timestamp, None).url;
      url.Some? && Basename(url.value) == SanitizeFilename(Basename(path), timestamp)
  {
    SanitizedHasNoSlash(Basename(path), timestamp);
    ObjectUrlNamesObject(SanitizeFilename(Basename(path), timestamp));
  }
}

/**
 * The bucket layout the uploaders and the Lambdas share: uploaded images
 * sit at the top of one bucket, and each image's analysis is a JSON
 * object under the "analysis/" folder.
 */
module S3Layout {
  /** `S3_BUCKET_NAME` of both upload scripts. */
  const BucketName: string := "is215-groupb-pixel8-s3"

  /** The folder the Lambdas write to and the server reads from
      (`S3_ANALYSIS_PREFIX`, and the literal in both handlers). */
  const AnalysisPrefix: string := "analysis/"

  /** The suffix of every analysis object. */
  const JsonSuffix: string := ".json"

  /** The suffix names no folder. */
  lemma JsonSuffixHasNoSlash()
    ensures '/' !in JsonSuffix
  {
    assert forall k | 0 <= k < |JsonSuffix| :: JsonSuffix[k] != '/';
  }
}

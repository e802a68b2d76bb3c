/**
 * The list logic of the upload flow, as functions on values: selection
 * removal by index (`Array.prototype.filter` on the position), the
 * idempotent append of an uploaded photo's public URL, and the effect of the
 * sequential per-file loop of `handleAccess` on the previews and the error.
 */
module Uploads {
  import opened Wrappers

  /** A selected browser `File`; `id` tells apart files with equal name and type. */
  datatype File = File(id: nat, name: string, contentType: string)

  /**
   * What happened to one file in the upload loop, as the network reported it:
   * the signing endpoint answered with a non-2xx status and a JSON body whose
   * `error` field is `error` ("" when missing or empty); the `PUT` answered
   * with a non-2xx status; a step threw an `Error` with `message` (a network
   * failure or a body that is not JSON); a step threw something that is not
   * an `Error`; or both steps succeeded and the object was stored at `key`.
   */
  datatype FileOutcome =
    | GrantRefused(error: string)
    | PutRefused
    | Threw(message: string)
    | ThrewNonError
    | Uploaded(key: string)

  /** The public object URL built from the configured bucket and region and the key. */
  function ObjectUrl(bucket: string, region: string, key: string): (url: string)
    ensures |url| >= 8 + |key| && url[..8] == "https://" && url[|url| - |key|..] == key
  {
    "https://" + bucket + ".s3." + region + ".amazonaws.com/" + key
  }

  const GrantFailedMessage := "Failed to get signed URL"
  const PutFailedMessage := "Failed to upload file"
  const UnknownErrorMessage := "An unknown error occurred"

  /** The message the loop stores in `uploadError` after one file, or null. */
  function ErrorAfter(outcome: FileOutcome): (e: Option<string>)
    ensures e.None? <==> outcome.Uploaded?
    ensures outcome.GrantRefused? && outcome.error != "" ==> e == Some(outcome.error)
  {
    match outcome
    case GrantRefused(error) => Some(if error != "" then error else GrantFailedMessage)
    case PutRefused => Some(PutFailedMessage)
    case Threw(message) => Some(message)
    case ThrewNonError => Some(UnknownErrorMessage)
    case Uploaded(_) => None
  }

  predicate NoDuplicates<T(==)>(s: seq<T>)
  {
    forall i, j :: 0 <= i < j < |s| ==> s[i] != s[j]
  }

  function Elements<T>(s: seq<T>): set<T>
  {
    set x | x in s
  }

  /** The updater passed to `setImagePreviews`: append the URL unless it is present. */
  function AppendIfAbsent(previews: seq<string>, url: string): (r: seq<string>)
    ensures url in r
    ensures |previews| <= |r| <= |previews| + 1 && r[..|previews|] == previews
    ensures Elements(r) == Elements(previews) + {url}
    ensures url in previews ==> r == previews
    ensures NoDuplicates(previews) ==> NoDuplicates(r)
  {
    var r := if url in previews then previews else previews + [url];
    assert r[..|previews|] == previews;
    r
  }

  /** The previews after one file of the loop. */
  function StepPreviews(previews: seq<string>, outcome: FileOutcome, bucket: string, region: string): (r: seq<string>)
    ensures |previews| <= |r| <= |previews| + 1 && r[..|previews|] == previews
    ensures outcome.Uploaded? ==> Elements(r) == Elements(previews) + {ObjectUrl(bucket, region, outcome.key)}
    ensures !outcome.Uploaded? ==> r == previews
  {
    match outcome
    case Uploaded(key) => AppendIfAbsent(previews, ObjectUrl(bucket, region, key))
    case _ => previews
  }

  /** The previews after the loop has processed `outcomes`, in order. */
  function ResolvePreviews(previews: seq<string>, outcomes: seq<FileOutcome>, bucket: string, region: string): seq<string>
  {
    if outcomes == [] then previews
    else StepPreviews(ResolvePreviews(previews, outcomes[..|outcomes| - 1], bucket, region),
                      outcomes[|outcomes| - 1], bucket, region)
  }

  /** The URLs of the files that were uploaded. */
  function UploadedUrls(outcomes: seq<FileOutcome>, bucket: string, region: string): set<string>
  {
    if outcomes == [] then {}
    else
      var last := outcomes[|outcomes| - 1];
      UploadedUrls(outcomes[..|outcomes| - 1], bucket, region)
        + (if last.Uploaded? then {ObjectUrl(bucket, region, last.key)} else {})
  }

  /** `uploadError` after the loop: the last file's message, or null if it succeeded. */
  function LastError(before: Option<string>, outcomes: seq<FileOutcome>): (e: Option<string>)
    ensures outcomes != [] ==> (e.None? <==> outcomes[|outcomes| - 1].Uploaded?)
  {
    if outcomes == [] then before else ErrorAfter(outcomes[|outcomes| - 1])
  }

  /** A failure followed by a success leaves no error to display. */
  lemma LaterSuccessClearsError(before: Option<string>, key: string)
    ensures LastError(before, [PutRefused, Uploaded(key)]) == None
    ensures LastError(before, [Uploaded(key), PutRefused]) == Some(PutFailedMessage)
  {
  }

  /** The entries present before the loop keep their places. */
  lemma {:induction false} ResolveKeepsExisting(previews: seq<string>, outcomes: seq<FileOutcome>, bucket: string, region: string)
    ensures var r := ResolvePreviews(previews, outcomes, bucket, region);
      |previews| <= |r| <= |previews| + |outcomes| && r[..|previews|] == previews
  {
    if outcomes != [] {
      var front := outcomes[..|outcomes| - 1];
      ResolveKeepsExisting(previews, front, bucket, region);
      var mid := ResolvePreviews(previews, front, bucket, region);
      var r := ResolvePreviews(previews, outcomes, bucket, region);
      assert r[..|mid|] == mid;
      assert r[..|previews|] == mid[..|previews|];
    }
  }

  /** The loop never adds a duplicate to a duplicate-free preview list. */
  lemma {:induction false} ResolveNoDuplicates(previews: seq<string>, outcomes: seq<FileOutcome>, bucket: string, region: string)
    requires NoDuplicates(previews)
    ensures NoDuplicates(ResolvePreviews(previews, outcomes, bucket, region))
  {
    if outcomes != [] {
      ResolveNoDuplicates(previews, outcomes[..|outcomes| - 1], bucket, region);
    }
  }

  /** After the loop the previews are the old ones plus every uploaded file's URL, and nothing else. */
  lemma {:induction false} ResolveElements(previews: seq<string>, outcomes: seq<FileOutcome>, bucket: string, region: string)
    ensures Elements(ResolvePreviews(previews, outcomes, bucket, region))
         == Elements(previews) + UploadedUrls(outcomes, bucket, region)
  {
    if outcomes != [] {
      ResolveElements(previews, outcomes[..|outcomes| - 1], bucket, region);
    }
  }

  lemma {:induction false} DistinctCount<T>(s: seq<T>)
    requires NoDuplicates(s)
    ensures |Elements(s)| == |s|
  {
    if s != [] {
      var front := s[..|s| - 1];
      DistinctCount(front);
      assert Elements(s) == Elements(front) + {s[|s| - 1]};
      assert s[|s| - 1] !in Elements(front);
    }
  }

  /**
   * When the M uploaded URLs are distinct and new, the loop leaves exactly
   * M more previews than it found, whatever the failures among the files.
   */
  lemma ResolveCount(previews: seq<string>, outcomes: seq<FileOutcome>, bucket: string, region: string)
    requires NoDuplicates(previews)
    requires UploadedUrls(outcomes, bucket, region) !! Elements(previews)
    ensures |ResolvePreviews(previews, outcomes, bucket, region)|
         == |previews| + |UploadedUrls(outcomes, bucket, region)|
  {
    var r := ResolvePreviews(previews, outcomes, bucket, region);
    ResolveNoDuplicates(previews, outcomes, bucket, region);
    ResolveElements(previews, outcomes, bucket, region);
    DistinctCount(r);
    DistinctCount(previews);
  }

  /** Processing two batches in turn is processing them as one, in order. */
  lemma {:induction false} ResolveConcat(previews: seq<string>, a: seq<FileOutcome>, b: seq<FileOutcome>, bucket: string, region: string)
    ensures ResolvePreviews(previews, a + b, bucket, region)
         == ResolvePreviews(ResolvePreviews(previews, a, bucket, region), b, bucket, region)
  {
    if b == [] {
      assert a + b == a;
    } else {
      assert (a + b)[..|a + b| - 1] == a + b[..|b| - 1];
      ResolveConcat(previews, a, b[..|b| - 1], bucket, region);
    }
  }

  /** A failing file does not abort the batch: the rest is processed as if it were absent. */
  lemma FailureIsSkipped(previews: seq<string>, before: seq<FileOutcome>, failed: FileOutcome, after: seq<FileOutcome>, bucket: string, region: string)
    requires !failed.Uploaded?
    ensures ResolvePreviews(previews, before + [failed] + after, bucket, region)
         == ResolvePreviews(previews, before + after, bucket, region)
  {
    ResolveConcat(previews, before + [failed], after, bucket, region);
    ResolveConcat(previews, before, after, bucket, region);
    assert (before + [failed])[..|before + [failed]| - 1] == before;
  }

  /**
   * `s.filter((_, i) => i !== index)`, position by position: the element at
   * `index` is dropped if there is one, the others keep their order.
   */
  function Without<T>(s: seq<T>, index: int): (r: seq<T>)
    ensures 0 <= index < |s| ==> r == s[..index] + s[index + 1..]
    ensures !(0 <= index < |s|) ==> r == s
  {
    if s == [] then []
    else (if index == 0 then [] else [s[0]]) + Without(s[1..], index - 1)
  }

  /**
   * Removing the same index from two lists of equal length keeps them of
   * equal length and keeps each pair together.
   */
  lemma WithoutKeepsPairs<A, B>(files: seq<A>, previews: seq<B>, index: int, k: int)
    requires |files| == |previews|
    requires 0 <= k < |Without(files, index)|
    ensures |Without(previews, index)| == |Without(files, index)|
    ensures var j := if 0 <= index <= k then k + 1 else k;
      0 <= j < |files| && Without(files, index)[k] == files[j] && Without(previews, index)[k] == previews[j]
  {
  }
}

/**
 * The state of the page component `Home` and its event handlers: file
 * selection and removal, the sequential upload loop of the "access" button,
 * "upload more", the page countdown's tick, and the phone-number dialog.
 * Each React state variable is a field; a handler is a method that makes the
 * state updates the handler schedules, in order.
 */
module HomePage {
  import opened Wrappers
  import opened Phone
  import opened PageCountdown
  import opened Uploads

  datatype Stage = UploadStage | CountdownStage

  /** The stage chosen at mount from the stored completion marker. */
  function InitialStage(hasUploaded: bool): (stage: Stage)
    ensures stage == CountdownStage <==> hasUploaded
    ensures stage == UploadStage <==> !hasUploaded
  {
    if hasUploaded then CountdownStage else UploadStage
  }

  /**
   * How `/api/storePhoneNumber` answered: a response with its `ok` flag and
   * whether it carried a JSON body, or a failed `fetch`.
   */
  datatype StoreReply = Reply(ok: bool, json: bool) | FetchFailed

  const InvalidPhoneMessage := "Please enter a valid phone number"
  const StoreFailedMessage := "Failed to save your phone number. Please try again."
  const ConfirmationText := "You'll be notified when your photos are ready!"

  class Home {
    var stage: Stage
    var selectedFiles: seq<File>
    var imagePreviews: seq<string>
    var uploadError: Option<string>
    /** The `hasUploaded` entry of `localStorage`. */
    var hasUploaded: bool
    var countdown: int
    var phoneNumber: string
    var phoneError: string
    var isShaking: bool
    var confirmationMessage: string
    var isModalOpen: bool

    /** The countdown state is never negative. */
    predicate Valid()
      reads this
    {
      countdown >= 0
    }

    /** The page after mount, given the stored marker and the clock. */
    constructor (storedMarker: bool, nowMs: int)
      ensures Valid()
      ensures hasUploaded == storedMarker && stage == InitialStage(storedMarker)
      ensures countdown == CalculateCountdown(TargetMs, nowMs)
      ensures selectedFiles == [] && imagePreviews == [] && uploadError == None
      ensures phoneNumber == "" && phoneError == "" && !isShaking
      ensures confirmationMessage == "" && !isModalOpen
    {
      hasUploaded := storedMarker;
      stage := InitialStage(storedMarker);
      countdown := CalculateCountdown(TargetMs, nowMs);
      selectedFiles, imagePreviews, uploadError := [], [], None;
      phoneNumber, phoneError, isShaking := "", "", false;
      confirmationMessage, isModalOpen := "", false;
    }

    /** The one-second interval of the page countdown. */
    method CountdownTick()
      modifies this`countdown
      ensures Valid()
      ensures old(countdown) > 0 ==> countdown == old(countdown) - 1
      ensures old(countdown) <= 0 ==> countdown == 0
    {
      countdown := Tick(countdown);
    }

    /** The countdown as the page shows it; it reads back as the countdown. */
    function Display(): (t: string)
      reads this
      requires Valid()
      ensures ParseClock(t) == Some(countdown)
    {
      FormatCountdownRoundTrip(countdown);
      FormatCountdown(countdown)
    }

    /**
     * `handleFileChange`: a new selection replaces both lists, with one object
     * URL per file at the same position; no file list leaves both unchanged.
     */
    method FileChange(files: Option<seq<File>>, objectUrl: File -> string)
      modifies this`selectedFiles, this`imagePreviews
      ensures files.None? ==> selectedFiles == old(selectedFiles) && imagePreviews == old(imagePreviews)
      ensures files.Some? ==> selectedFiles == files.value
      ensures files.Some? ==> |imagePreviews| == |selectedFiles|
      ensures files.Some? ==> forall k :: 0 <= k < |selectedFiles| ==> imagePreviews[k] == objectUrl(selectedFiles[k])
    {
      if files.Some? {
        var newFiles := files.value;
        selectedFiles := newFiles;
        imagePreviews := seq(|newFiles|, k requires 0 <= k < |newFiles| => objectUrl(newFiles[k]));
      }
    }

    /** `handleRemovePhoto`: drop position `index` from both lists. */
    method RemovePhoto(index: int)
      modifies this`selectedFiles, this`imagePreviews
      ensures 0 <= index < |old(selectedFiles)| ==>
        selectedFiles == old(selectedFiles)[..index] + old(selectedFiles)[index + 1..]
      ensures 0 <= index < |old(imagePreviews)| ==>
        imagePreviews == old(imagePreviews)[..index] + old(imagePreviews)[index + 1..]
      ensures !(0 <= index < |old(selectedFiles)|) ==> selectedFiles == old(selectedFiles)
      ensures !(0 <= index < |old(imagePreviews)|) ==> imagePreviews == old(imagePreviews)
      ensures |old(selectedFiles)| == |old(imagePreviews)| ==> |selectedFiles| == |imagePreviews|
    {
      selectedFiles := Without(selectedFiles, index);
      imagePreviews := Without(imagePreviews, index);
    }

    /**
     * `handleAccess`, with `outcomes[i]` what the network did for the i-th
     * selected file. Every file is tried in order, whatever the earlier ones
     * did; then the selection is cleared, the marker stored and the stage
     * moved to the countdown, even when every file failed. `storageAccepts`
     * says whether `localStorage.setItem` returns; when it throws, the outer
     * `catch` swallows the error after the selection was already cleared, and
     * neither the marker nor the stage changes.
     */
    method Access(outcomes: seq<FileOutcome>, bucket: string, region: string, storageAccepts: bool)
      requires |outcomes| == |selectedFiles|
      modifies this`selectedFiles, this`imagePreviews, this`uploadError, this`hasUploaded, this`stage
      ensures old(selectedFiles) == [] ==>
        && selectedFiles == [] && imagePreviews == old(imagePreviews) && uploadError == old(uploadError)
        && hasUploaded == old(hasUploaded) && stage == old(stage)
      ensures old(selectedFiles) != [] ==>
        && selectedFiles == []
        && (storageAccepts ==> hasUploaded && stage == CountdownStage)
        && (!storageAccepts ==> hasUploaded == old(hasUploaded) && stage == old(stage))
        && imagePreviews == ResolvePreviews(old(imagePreviews), outcomes, bucket, region)
        && uploadError == ErrorAfter(outcomes[|outcomes| - 1])
    {
      if |selectedFiles| == 0 {
        return;
      }
      var files := selectedFiles;
      for i := 0 to |files|
        invariant selectedFiles == files
        invariant hasUploaded == old(hasUploaded) && stage == old(stage)
        invariant imagePreviews == ResolvePreviews(old(imagePreviews), outcomes[..i], bucket, region)
        invariant uploadError == LastError(old(uploadError), outcomes[..i])
      {
        assert outcomes[..i + 1][..i] == outcomes[..i];
        match outcomes[i]
        case Uploaded(key) =>
          var imageUrl := ObjectUrl(bucket, region, key);
          if imageUrl !in imagePreviews {
            imagePreviews := imagePreviews + [imageUrl];
          }
          uploadError := None;
        case GrantRefused(error) =>
          uploadError := Some(if error != "" then error else GrantFailedMessage);
        case PutRefused =>
          uploadError := Some(PutFailedMessage);
        case Threw(message) =>
          uploadError := Some(message);
        case ThrewNonError =>
          uploadError := Some(UnknownErrorMessage);
      }
      assert outcomes[..|files|] == outcomes;
      selectedFiles := [];
      if !storageAccepts {
        return;
      }
      hasUploaded := true;
      stage := CountdownStage;
    }

    /** `handleUploadMorePhotos`: back to an empty upload stage; the marker stays. */
    method UploadMorePhotos()
      modifies this`selectedFiles, this`imagePreviews, this`stage
      ensures selectedFiles == [] && imagePreviews == [] && stage == UploadStage
      ensures hasUploaded == old(hasUploaded)
    {
      selectedFiles := [];
      imagePreviews := [];
      stage := UploadStage;
    }

    /** The phone input's `onChange`: keep the formatted value, clear the error. */
    method PhoneInput(value: string)
      modifies this`phoneNumber, this`phoneError
      ensures phoneNumber == FormatPhoneNumber(value) && phoneError == ""
    {
      phoneNumber := FormatPhoneNumber(value);
      phoneError := "";
    }

    /**
     * `handleNotificationSubmit`. `request` is the body sent to the store, if
     * any: it is sent only when the field's digits pass the validator, and
     * otherwise the field error and the shake are set and nothing is sent.
     * `reply` is what the store answers to a request that is sent.
     */
    method SubmitNotification(reply: StoreReply) returns (request: Option<string>)
      modifies this`phoneError, this`isShaking, this`confirmationMessage
      ensures request == Submission(phoneNumber)
      ensures request.None? ==>
        phoneError == InvalidPhoneMessage && isShaking && confirmationMessage == old(confirmationMessage)
      ensures request.Some? && reply == Reply(true, true) ==>
        confirmationMessage == ConfirmationText && phoneError == "" && isShaking == old(isShaking)
      ensures request.Some? && reply != Reply(true, true) ==>
        phoneError == StoreFailedMessage && confirmationMessage == old(confirmationMessage)
        && isShaking == old(isShaking)
    {
      var unformatted := StripNonDigits(phoneNumber);
      if !IsValidPhoneNumber(unformatted) {
        phoneError := InvalidPhoneMessage;
        isShaking := true;
        return None;
      }
      request := Some(unformatted);
      match reply
      case Reply(ok, json) =>
        if json && ok {
          confirmationMessage := ConfirmationText;
          phoneError := "";
        } else {
          phoneError := StoreFailedMessage;
        }
      case FetchFailed =>
        phoneError := StoreFailedMessage;
    }

    /** The 500 ms timer set by a rejected submission. */
    method ShakeElapsed()
      modifies this`isShaking
      ensures !isShaking
    {
      isShaking := false;
    }

    /** The 2 s timer set by an accepted submission. */
    method ConfirmationElapsed()
      modifies this`confirmationMessage, this`isModalOpen
      ensures confirmationMessage == "" && !isModalOpen
    {
      confirmationMessage := "";
      isModalOpen := false;
    }

    /** The dialog's `onOpenChange` and its trigger button. */
    method SetModalOpen(open: bool)
      modifies this`isModalOpen
      ensures isModalOpen == open
    {
      isModalOpen := open;
    }
  }
}

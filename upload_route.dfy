/**
 * The `POST /api/upload` handler: validate the email, the presence of a
 * video and its MIME type, check the quota, hand the file to Google Drive,
 * record the upload and answer with the remaining quota. The Drive call's
 * outcome is a parameter; the handler reports which call it would make.
 */
module UploadRoute {
  import opened Options
  import opened Strings
  import opened UploadTracker
  import opened GoogleDrive

  /** `ALLOWED_TYPES`. */
  const AllowedTypes: seq<string> := ["video/mp4", "video/quicktime"]

  const EmailRequired: string := "Valid email is required"
  const VideoRequired: string := "Video file is required"
  const TypeNotAllowed: string := "Only MP4 and MOV files are allowed"
  const QuotaExceeded: string := "You have reached the maximum of 2 uploads for this email address"
  const DriveFailed: string := "Failed to upload video"
  const LastUploadMessage: string := "Video uploaded successfully! This was your last allowed upload."
  const SuccessPrefix: string := "Video uploaded successfully! You have "
  const OneLeftMessage: string := SuccessPrefix + "1" + " upload remaining."
  const TwoLeftMessage: string := SuccessPrefix + "2" + " uploads remaining."

  /** The `video` form field: the file's name and its declared MIME type. */
  datatype VideoFile = VideoFile(name: string, mimeType: string)

  /** The JSON body of the answer. */
  datatype Body =
    | ErrorBody(error: string)
    | SuccessBody(message: string, fileId: Option<string>, fileName: Option<string>)

  datatype Response = Response(status: nat, body: Body)

  /** `email && email.includes('@')`: present, not empty, and holding an `@`. */
  predicate IsValidEmail(email: Option<string>) {
    email.Some? && email.value != "" && '@' in email.value
  }

  /** The emptiness test is subsumed by the `@` test: an email passes exactly when it holds an `@`. */
  lemma ValidEmailHasAt(email: Option<string>)
    ensures IsValidEmail(email) <==> email.Some? && '@' in email.value
  {
  }

  /** The three checks that answer 400, in the order the handler makes them. */
  function CheckRequest(email: Option<string>, video: Option<VideoFile>): (r: Option<Response>)
    ensures !IsValidEmail(email) ==> r == Some(Response(400, ErrorBody(EmailRequired)))
    ensures IsValidEmail(email) && video.None? ==> r == Some(Response(400, ErrorBody(VideoRequired)))
    ensures IsValidEmail(email) && video.Some? && video.value.mimeType !in AllowedTypes ==>
      r == Some(Response(400, ErrorBody(TypeNotAllowed)))
    ensures r.None? <==> IsValidEmail(email) && video.Some? && video.value.mimeType in AllowedTypes
  {
    if !IsValidEmail(email) then Some(Response(400, ErrorBody(EmailRequired)))
    else if video.None? then Some(Response(400, ErrorBody(VideoRequired)))
    else if video.value.mimeType !in AllowedTypes then Some(Response(400, ErrorBody(TypeNotAllowed)))
    else None
  }

  /** `uploadResult.error || 'Failed to upload video'`. */
  function DriveErrorMessage(result: UploadResult): (m: string)
    ensures m != ""
    ensures result.error.Some? && result.error.value != "" ==> m == result.error.value
    ensures result.error.None? || result.error.value == "" ==> m == DriveFailed
  {
    if result.error.Some? && result.error.value != "" then result.error.value else DriveFailed
  }

  /** The success message: how many uploads are left, singular for one, or that this was the last. */
  function SuccessMessage(remaining: nat): (m: string)
    ensures remaining == 0 ==> m == LastUploadMessage
    ensures remaining == 1 ==> m == OneLeftMessage
    ensures remaining == 2 ==> m == TwoLeftMessage
    ensures remaining > 1 ==> m == SuccessPrefix + NatToString(remaining) + " uploads remaining."
  {
    if remaining > 0 then
      SuccessPrefix + NatToString(remaining) + (if remaining == 1 then " upload remaining." else " uploads remaining.")
    else LastUploadMessage
  }

  /**
   * `POST`, given the form fields, the outcome the Drive upload would have
   * and the time of the request. Besides the answer it returns the Drive
   * upload it performs, if any. The result of `RecordUpload` is not looked
   * at: in this sequential model it always succeeds, because `CanUpload`
   * was checked just before; in the source another request may record in
   * between, and the handler then still answers with success.
   */
  method Post(tracker: Tracker, email: Option<string>, video: Option<VideoFile>, drive: UploadResult, now: string)
    returns (response: Response, call: Option<UploadCall>)
    modifies tracker
    ensures CheckRequest(email, video).Some? ==>
      response == CheckRequest(email, video).value && call.None?
    ensures CheckRequest(email, video).None? && !old(tracker.CanUpload(email.value)) ==>
      response == Response(429, ErrorBody(QuotaExceeded)) && call.None?
    ensures CheckRequest(email, video).None? && old(tracker.CanUpload(email.value)) ==>
      call == Some(UploadCall(video.value.name, video.value.mimeType, email.value))
    ensures call.Some? && !drive.success ==>
      response == Response(500, ErrorBody(DriveErrorMessage(drive)))
    ensures call.None? || !drive.success ==> tracker.table == old(tracker.table)
    ensures call.Some? && drive.success ==>
      var key := Normalize(email.value);
      key in tracker.table && tracker.table == old(tracker.table)[key := tracker.table[key]]
      && tracker.GetUploadHistory(email.value)
         == old(tracker.GetUploadHistory(email.value)) + [UploadEvent(now, video.value.name, drive.fileId)]
      && response == Response(200, SuccessBody(SuccessMessage(tracker.GetRemainingUploads(email.value)),
                                               drive.fileId, drive.fileName))
    ensures old(tracker.Consistent()) ==> tracker.Consistent()
    ensures old(tracker.KeysNormalized()) ==> tracker.KeysNormalized()
    ensures old(tracker.Valid()) ==> tracker.Valid()
    ensures old(tracker.Consistent()) && response.status == 200 ==>
      response.body.SuccessBody? && response.body.message in {OneLeftMessage, LastUploadMessage}
  {
    var rejected := CheckRequest(email, video);
    if rejected.Some? {
      return rejected.value, None;
    }
    var address := email.value;
    var file := video.value;
    var allowed := tracker.CanUpload(address);
    if !allowed {
      return Response(429, ErrorBody(QuotaExceeded)), None;
    }
    call := Some(UploadCall(file.name, file.mimeType, address));
    if !drive.success {
      return Response(500, ErrorBody(DriveErrorMessage(drive))), call;
    }
    var recorded := tracker.RecordUpload(address, file.name, drive.fileId, now);
    var remaining := tracker.GetRemainingUploads(address);
    response := Response(200, SuccessBody(SuccessMessage(remaining), drive.fileId, drive.fileName));
  }
}

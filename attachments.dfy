/**
 * The attachment workflow: a file selection requests signing data from the
 * backend, uploads the file to the storage service with it, and appends a
 * Markdown reference to the uploaded file to the post editor's text.
 *
 * The backend and the storage service are parameters: total functions from
 * the request made to the result it yields. Each run returns the requests it
 * made, so what was never requested is stated, not only what was.
 */
module Attachments {
  import opened Wrappers
  import opened PercentDecoding
  import opened Markdown
  import opened UploadForm

  /** Why a run stops before the editor is touched. */
  datatype Failure =
    | NoFileSelected                  // files[0] is undefined: reading its name throws
    | PolicyRequestFailed(reason: string)
    | UploadRejected(reason: string)
    | MalformedLocation               // decodeURIComponent throws a URIError

  /** How the chain of steps settles. */
  datatype Outcome = Done | Failed(failure: Failure)

  /** A request the chain makes of the outside world. */
  datatype Call = RequestPolicy(filename: string, mimeType: string) | Upload(request: UploadRequest)

  /** The post editor's textarea: its text and the change notifications fired on it. */
  class Editor {
    var buffer: string
    ghost var changeEvents: nat

    constructor(initial: string)
      ensures buffer == initial && changeEvents == 0
    {
      buffer := initial;
      changeEvents := 0;
    }

    /**
     * appendToTextArea: decodes the storage service's Location, then appends a
     * blank line and the snippet for the file and fires one change
     * notification. The decoding comes first, so a malformed Location leaves
     * the text and the notifications as they were.
     */
    method AppendToTextArea(filename: string, mimeType: string, encodedLocation: string) returns (outcome: Outcome)
      modifies this
      ensures PercentDecode(encodedLocation).None? ==>
                outcome == Failed(MalformedLocation)
                && buffer == old(buffer) && changeEvents == old(changeEvents)
      ensures PercentDecode(encodedLocation).Some? ==>
                outcome == Done
                && buffer == old(buffer) + "\n\n" + MakeMarkdown(filename, mimeType, PercentDecode(encodedLocation).value)
                && changeEvents == old(changeEvents) + 1
    {
      var location := PercentDecode(encodedLocation);
      if location.None? {
        return Failed(MalformedLocation);
      }
      var fileMarkdown := MakeMarkdown(filename, mimeType, location.value);
      buffer := buffer + "\n\n" + fileMarkdown;
      changeEvents := changeEvents + 1;
      outcome := Done;
    }

    /**
     * The change handler mount installs: takes files[0] only, requests signing
     * data for it, uploads it once that succeeded, and appends its snippet once
     * the upload succeeded. A failure at any step ends the run with the editor
     * untouched; a success appends exactly one snippet and fires exactly one
     * change notification.
     */
    method HandleSelection(
      files: seq<File>,
      requestPolicy: (string, string) -> Result<Policy, string>,
      upload: UploadRequest -> Result<string, string>)
      returns (calls: seq<Call>, outcome: Outcome)
      modifies this
      ensures outcome.Failed? ==> buffer == old(buffer) && changeEvents == old(changeEvents)
      ensures outcome == Done ==> changeEvents == old(changeEvents) + 1
      ensures |files| == 0 ==> calls == [] && outcome == Failed(NoFileSelected)
      ensures |files| > 0 ==>
                var file := files[0];
                var policy := requestPolicy(file.name, file.mimeType);
                if policy.Failure? then
                  calls == [RequestPolicy(file.name, file.mimeType)]
                  && outcome == Failed(PolicyRequestFailed(policy.error))
                else
                  var request := Post(policy.value.action, SignedForm(policy.value, file));
                  var ack := upload(request);
                  calls == [RequestPolicy(file.name, file.mimeType), Upload(request)]
                  && if ack.Failure? then outcome == Failed(UploadRejected(ack.error))
                     else match PercentDecode(ack.value)
                       case None => outcome == Failed(MalformedLocation)
                       case Some(location) =>
                         outcome == Done
                         && buffer == old(buffer) + "\n\n" + MakeMarkdown(file.name, file.mimeType, location)
    {
      if |files| == 0 {
        return [], Failed(NoFileSelected);
      }
      var file := files[0];
      calls := [RequestPolicy(file.name, file.mimeType)];
      var response := requestPolicy(file.name, file.mimeType);
      if response.Failure? {
        return calls, Failed(PolicyRequestFailed(response.error));
      }
      var request := BuildUpload(response.value, file);
      calls := calls + [Upload(request)];
      var xml := upload(request);
      if xml.Failure? {
        return calls, Failed(UploadRejected(xml.error));
      }
      outcome := AppendToTextArea(file.name, file.mimeType, xml.value);
    }
  }

  /**
   * Selecting photo.png when the storage service answers with a Location
   * that decodes to https://bucket/abc, as https%3A%2F%2Fbucket%2Fabc does
   * (BucketLocation): the upload carries the signed form, and the editor
   * gains a blank line and the inline image of https://bucket/abc.
   */
  method PhotoScenario(signing: Policy, encoded: string)
    requires PercentDecode(encoded) == Some("https://bucket/abc")
  {
    var editor := new Editor("Draft");
    var photo := File("photo.png", "image/png", [0x89, 0x50]);
    var calls, outcome := editor.HandleSelection(
      [photo],
      (name, mimeType) => Success(signing),
      request => Success(encoded));
    assert calls == [RequestPolicy("photo.png", "image/png"), Upload(Post(signing.action, SignedForm(signing, photo)))];
    assert outcome == Done;
    var location := "https://bucket/abc";
    assert editor.buffer == "Draft" + "\n\n" + "![" + photo.name + "](" + location + ")" by {
      assert IsImageType(photo.mimeType);
    }
    assert editor.changeEvents == 1;
  }

  /**
   * Selecting report.pdf into an empty editor, with a Location that decodes
   * to https://bucket/abc: the blank line is still added, and the snippet is
   * a link to https://bucket/abc.
   */
  method ReportScenario(signing: Policy, encoded: string)
    requires PercentDecode(encoded) == Some("https://bucket/abc")
  {
    var editor := new Editor("");
    var report := File("report.pdf", "application/pdf", [0x25, 0x50, 0x44, 0x46]);
    var calls, outcome := editor.HandleSelection(
      [report],
      (name, mimeType) => Success(signing),
      request => Success(encoded));
    assert calls == [RequestPolicy("report.pdf", "application/pdf"), Upload(Post(signing.action, SignedForm(signing, report)))];
    assert outcome == Done;
    assert !IsImageType(report.mimeType) by {
      assert report.mimeType[0] != 'i';
    }
    var location := "https://bucket/abc";
    assert editor.buffer == "" + "\n\n" + "[" + report.name + "](" + location + ")";
    assert editor.changeEvents == 1;
  }

  /** A rejected policy request: nothing is uploaded and the editor keeps its text. */
  method RejectedPolicyScenario() {
    var editor := new Editor("Draft");
    var report := File("report.pdf", "application/pdf", []);
    var calls, outcome := editor.HandleSelection(
      [report],
      (name, mimeType) => Failure("503"),
      request => Success("https%3A%2F%2Fbucket%2Fabc"));
    assert calls == [RequestPolicy("report.pdf", "application/pdf")];
    assert outcome == Failed(PolicyRequestFailed("503"));
    assert editor.buffer == "Draft" && editor.changeEvents == 0;
  }
}

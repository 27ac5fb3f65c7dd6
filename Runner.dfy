/** The two guards of the OCR runner page (ocr_runner.py) that decide
    whether any request is sent: an upload over 20 MB ends the page with an
    error, and "Run OCR" with no saved file reports an error instead of
    calling the service. */
module Runner {
  import opened Wrappers
  import opened Text

  /** The upload limit in bytes: 20 MB. */
  const MaxUploadBytes: nat := 20 * 1024 * 1024

  /** The uploaded file, as far as the guards look at it. */
  datatype Upload = Upload(name: string, size: nat)

  /** How the page run ends. */
  datatype RunOutcome =
    | UploadTooLarge              // error shown, page returns
    | NoFiles                     // "Run OCR" with nothing to send
    | Idle                        // the button was not clicked
    | Requested(filePaths: seq<string>)  // the two requests go out with these files

  /** The page from the upload to the "Run OCR" check, as it is meant to
      work (see `RunPageAsWritten` for the code as it stands). `tempDir` is the
      directory `tempfile.mkdtemp()` returns, `saved` whether writing the
      upload there succeeded, `runClicked` whether the button was pressed.
      A request is made exactly when the button was pressed and an upload
      within the limit was saved, and then with that one file. */
  method RunPage(upload: Option<Upload>, tempDir: string, saved: bool, runClicked: bool) returns (outcome: RunOutcome)
    ensures outcome == UploadTooLarge <==> upload.Some? && upload.value.size > MaxUploadBytes
    ensures outcome == NoFiles <==>
              runClicked && (upload.None? || (upload.value.size <= MaxUploadBytes && !saved))
    ensures outcome.Requested? <==>
              runClicked && upload.Some? && upload.value.size <= MaxUploadBytes && saved
    ensures outcome.Requested? ==> outcome.filePaths == [JoinPath(tempDir, upload.value.name)]
  {
    var filePaths: seq<string> := [];
    if upload.Some? {
      if upload.value.size > MaxUploadBytes {
        return UploadTooLarge;
      }
      if saved {
        filePaths := filePaths + [JoinPath(tempDir, upload.value.name)];
      }
    }
    if runClicked {
      if filePaths == [] {
        return NoFiles;
      }
      return Requested(filePaths);
    }
    return Idle;
  }

  /** The same page as the code stands: the module never imports
      `tempfile` or `Image`, so both branches of the `try` raise `NameError`
      before a path is appended; the `except` reports it, `file_paths`
      stays empty, and "Run OCR" can only report that there is no file. */
  method RunPageAsWritten(upload: Option<Upload>, runClicked: bool) returns (outcome: RunOutcome)
    ensures outcome == UploadTooLarge <==> upload.Some? && upload.value.size > MaxUploadBytes
    ensures outcome == NoFiles <==> runClicked && (upload.None? || upload.value.size <= MaxUploadBytes)
    ensures !outcome.Requested?
  {
    if upload.Some? && upload.value.size > MaxUploadBytes {
      return UploadTooLarge;
    }
    if runClicked {
      return NoFiles;
    }
    return Idle;
  }
}

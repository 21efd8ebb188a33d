/**
 * `validation.rs`: the `ValidationResult` accumulator and the size checks
 * `validate_media_file` makes before it hands a file to an external tool.
 */
module Validation {
  import opened Wrappers

  /** Files smaller than this are rejected before any tool is consulted. */
  const MIN_MEDIA_FILE_SIZE: nat := 32

  /**
   * `ValidationResult`: every field is public and updated in place; errors
   * and warnings are vectors that only grow.
   */
  class ValidationResult {
    var isValid: bool
    var format: string
    var duration: Option<real>
    var width: Option<int>
    var height: Option<int>
    var codec: Option<string>
    var frameCount: Option<int>
    var errors: seq<string>
    var warnings: seq<string>

    /** The verdict `finalize` would give: valid exactly when no error was recorded. */
    predicate Settled()
      reads this
    {
      isValid == (|errors| == 0)
    }

    /** `ValidationResult::new`: invalid, no format, nothing measured, nothing recorded. */
    constructor ()
      ensures !isValid && format == ""
      ensures duration.None? && width.None? && height.None? && codec.None? && frameCount.None?
      ensures errors == [] && warnings == []
    {
      isValid := false;
      format := "";
      duration := None;
      width := None;
      height := None;
      codec := None;
      frameCount := None;
      errors := [];
      warnings := [];
    }

    /** `add_error`: records exactly one more error and marks the result invalid. */
    method AddError(error: string)
      modifies this
      ensures errors == old(errors) + [error] && !isValid
      ensures warnings == old(warnings) && format == old(format) && duration == old(duration)
      ensures width == old(width) && height == old(height) && codec == old(codec) && frameCount == old(frameCount)
      ensures Settled()
    {
      errors := errors + [error];
      isValid := false;
    }

    /** `add_warning`: records exactly one more warning; the verdict and the errors stay as they were. */
    method AddWarning(warning: string)
      modifies this
      ensures warnings == old(warnings) + [warning]
      ensures isValid == old(isValid) && errors == old(errors) && format == old(format) && duration == old(duration)
      ensures width == old(width) && height == old(height) && codec == old(codec) && frameCount == old(frameCount)
      ensures Settled() == old(Settled())
    {
      warnings := warnings + [warning];
    }

    /**
     * `finalize`: the result is valid exactly when no error was recorded;
     * on a result already finalized it changes nothing, so a second call
     * is a no-op.
     */
    method Finalize()
      modifies this
      ensures isValid == (|errors| == 0) && Settled()
      ensures errors == old(errors) && warnings == old(warnings) && format == old(format) && duration == old(duration)
      ensures width == old(width) && height == old(height) && codec == old(codec) && frameCount == old(frameCount)
      ensures old(Settled()) ==> unchanged(this)
    {
      isValid := |errors| == 0;
    }
  }

  /** What the file system says about the path: missing, unreadable metadata, or a length. */
  datatype FileProbe = Missing | MetadataError(message: string) | Present(length: nat)

  /** Which external validators are installed. */
  datatype Tools = Tools(ffmpeg: bool, mediainfo: bool)

  /**
   * The one error the pre-checks of `validate_media_file` record, in the
   * order the source makes them, or `None` once the file is present and
   * at least 32 bytes long.
   */
  function PreCheckError(path: string, file: FileProbe): (e: Option<string>)
    ensures e.None? <==> file.Present? && file.length >= MIN_MEDIA_FILE_SIZE
    ensures file.Present? && file.length == 0 ==> e == Some("File is empty")
    ensures file.Present? && 0 < file.length < MIN_MEDIA_FILE_SIZE ==> e == Some("File is too small to be a valid media file")
  {
    match file
    case Missing => Some("File does not exist: " + path)
    case MetadataError(message) => Some("Failed to read file metadata: " + message)
    case Present(length) =>
      if length == 0 then Some("File is empty")
      else if length < MIN_MEDIA_FILE_SIZE then Some("File is too small to be a valid media file")
      else None
  }

  /**
   * `validate_media_file`. The probe of the file system and the
   * availability of the tools are parameters; `probed` stands for what
   * `validate_with_ffmpeg` or `validate_with_mediainfo` returns, which the
   * source takes over as its result.
   */
  method ValidateMediaFile(path: string, file: FileProbe, tools: Tools, probed: ValidationResult) returns (result: ValidationResult)
    ensures PreCheckError(path, file).Some? ==>
      fresh(result) && result.errors == [PreCheckError(path, file).value] && !result.isValid && result.warnings == []
    ensures PreCheckError(path, file).None? && (tools.ffmpeg || tools.mediainfo) ==> result == probed
    ensures PreCheckError(path, file).None? && !tools.ffmpeg && !tools.mediainfo ==>
      fresh(result) && result.isValid && result.errors == []
      && result.warnings == ["No validation tools available (FFmpeg or MediaInfo)"]
  {
    result := new ValidationResult();
    match file {
      case Missing =>
        result.AddError("File does not exist: " + path);
        return;
      case MetadataError(message) =>
        result.AddError("Failed to read file metadata: " + message);
        return;
      case Present(length) =>
        if length == 0 {
          result.AddError("File is empty");
          return;
        }
        if length < MIN_MEDIA_FILE_SIZE {
          result.AddError("File is too small to be a valid media file");
          return;
        }
    }
    if tools.ffmpeg {
      result := probed;
    } else if tools.mediainfo {
      result := probed;
    } else {
      result.AddWarning("No validation tools available (FFmpeg or MediaInfo)");
      result.isValid := true;
    }
  }
}

/** The extension-to-MIME-type guess of `import_asset`: a case-insensitive
    match on the file extension with a fallback for everything else. */
module Mime {
  import opened StdText

  const OctetStream: string := "application/octet-stream"

  /** The MIME type stored for an imported file with this extension. */
  function MimeType(extension: string): (mime: string)
    ensures mime != ""
  {
    match AsciiLower(extension)
    case "png" => "image/png"
    case "jpg" | "jpeg" => "image/jpeg"
    case "gif" => "image/gif"
    case "webp" => "image/webp"
    case "mp4" => "video/mp4"
    case "webm" => "video/webm"
    case "mkv" => "video/x-matroska"
    case "mp3" => "audio/mpeg"
    case "wav" => "audio/wav"
    case "ogg" => "audio/ogg"
    case "pdf" => "application/pdf"
    case "vtt" => "text/vtt"
    case "srt" => "application/x-subrip"
    case _ => OctetStream
  }

  /** The same table as data: lower-case extension to MIME type. */
  const MimeTable: map<string, string> := map[
    "png" := "image/png",
    "jpg" := "image/jpeg",
    "jpeg" := "image/jpeg",
    "gif" := "image/gif",
    "webp" := "image/webp",
    "mp4" := "video/mp4",
    "webm" := "video/webm",
    "mkv" := "video/x-matroska",
    "mp3" := "audio/mpeg",
    "wav" := "audio/wav",
    "ogg" := "audio/ogg",
    "pdf" := "application/pdf",
    "vtt" := "text/vtt",
    "srt" := "application/x-subrip"]

  /** The match agrees with the table: a listed lower-cased extension gets
      its entry, every other extension gets `application/octet-stream`. */
  lemma MimeTypeIsTableLookup(extension: string)
    ensures MimeType(extension)
         == if AsciiLower(extension) in MimeTable then MimeTable[AsciiLower(extension)] else OctetStream
  {
  }

  /** Only an unlisted extension falls back to `application/octet-stream`. */
  lemma FallbackExactlyForUnlisted(extension: string)
    ensures MimeType(extension) == OctetStream <==> AsciiLower(extension) !in MimeTable
  {
    MimeTypeIsTableLookup(extension);
  }

  /** The lookup ignores ASCII case: an extension and its lower-cased form
      get the same type. */
  lemma MimeTypeIgnoresCase(extension: string)
    ensures MimeType(AsciiLower(extension)) == MimeType(extension)
  {
    AsciiLowerIdempotent(extension);
  }

  /** `jpg` and `jpeg`, in any case, are both `image/jpeg`. */
  lemma JpegSpellings(extension: string)
    requires AsciiLower(extension) == "jpg" || AsciiLower(extension) == "jpeg"
    ensures MimeType(extension) == "image/jpeg"
  {
  }
}

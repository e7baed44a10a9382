/** The metadata record the importer consumes. It is produced per file by
    the media classes from ExifTool output, which is not part of this model. */
module MediaMetadata {
  import opened Common

  /** `date_taken`: year, month, day, hour, minute, second. */
  datatype DateTime = DateTime(year: int, month: int, day: int, hour: int, minute: int, second: int)

  /** A field is `None` both when the media class left it out and when it
      set it to `None`. */
  datatype Metadata = Metadata(
    dateTaken: Option<DateTime>,
    baseName: string,
    originalName: Option<string>,
    title: Option<string>,
    album: Option<string>,
    cameraMake: Option<string>,
    cameraModel: Option<string>,
    origin: Option<string>,
    extension: string)

  /** `time.strftime(mask, date)`; the formatter itself is not modelled. */
  type Strftime = (string, DateTime) -> string

  /** Python truthiness of an optional string: present and non-empty. */
  predicate NonEmpty(v: Option<string>) {
    v.Some? && |v.value| > 0
  }
}

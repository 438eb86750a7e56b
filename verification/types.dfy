/** The records the converter passes between its components: the browser's
    file objects as the converter sees them, the per-file log entries the
    batch compressor keeps, and the configuration handed to the codec. */
module CompressionTypes {

  /** An optional value, for the fields the source declares with `?`. */
  datatype Option<+T> = None | Some(value: T)

  /** A file as far as the converter looks at it: its name, its declared MIME
      type and its size in bytes. The bytes themselves only ever reach the
      codec and the archive writer, so they are not modelled. */
  datatype File = File(name: string, mime: string, size: nat)

  /** The three states a log entry can be in. */
  datatype Status = Pending | Success | Error

  /** One entry of the activity log. The source draws `id` at random and only
      relies on ids being distinct; here it is the index of the file. */
  datatype CompressionLog = CompressionLog(
    id: nat,
    message: string,
    status: Status,
    originalSize: Option<nat>,
    compressedSize: Option<nat>)

  /** The batch configuration. Sizes and quality are floating-point numbers in
      the source; they are carried through as reals and never computed with. */
  datatype CompressionConfig = CompressionConfig(
    maxSizeMB: real,
    maxWidthOrHeight: Option<real>,
    useWebWorker: bool,
    initialQuality: Option<real>)
}

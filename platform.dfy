/** Platform capabilities the loader calls but whose code is not part of this
    model, as total functions: MD5 (RFC 1321), the UTF-8 encoding of a string,
    BitmapFactory's decoder and the PNG encoder of `Bitmap.compress`. Each is
    uninterpreted: the model proves nothing that depends on what they compute. */
module Platform {
  import opened Common
  import opened Graphics

  /** A 16-byte MD5 digest. */
  type Md5Digest = d: seq<Byte> | |d| == 16
    witness [0, 0, 0, 0, 0, 0, 0, 0, 0, 0, 0, 0, 0, 0, 0, 0]

  datatype Codecs = Codecs(
    md5: seq<Byte> -> Md5Digest,             // MessageDigest.getInstance("MD5").digest
    utf8: string -> seq<Byte>,               // String.toByteArray()
    decodeBitmap: seq<Byte> -> Option<Bitmap>, // BitmapFactory.decodeByteArray / decodeFile
    compressPng: Bitmap -> seq<Byte>)        // bitmap.compress(PNG, 90, out)

  /** How a file write ended: completed, failed before the file was opened, or
      failed after the file was truncated and `partial` written. */
  datatype WriteOutcome = Written | OpenFailed | FailedMidWrite(partial: seq<Byte>)

  /** The directory after a write of `bytes` to `name` that ended with
      `outcome`: a completed write replaces the file, a failed open leaves the
      directory alone, a write that failed part way leaves what was written. */
  function AfterWrite(files: map<string, seq<Byte>>, name: string, bytes: seq<Byte>, outcome: WriteOutcome)
    : (r: map<string, seq<Byte>>)
    ensures forall n :: n != name ==> (n in r <==> n in files) && (n in r ==> r[n] == files[n])
    ensures outcome.Written? ==> name in r && r[name] == bytes
    ensures outcome.OpenFailed? ==> r == files
    ensures outcome.FailedMidWrite? ==> name in r && r[name] == outcome.partial
  {
    match outcome
    case Written => files[name := bytes]
    case OpenFailed => files
    case FailedMidWrite(partial) => files[name := partial]
  }
}

/**
 * The vocabulary shared by the downloader: bytes, the errors it raises, the
 * network it talks to and the requests it records.
 */
module HlsTypes {
  import opened Wrappers

  type byte = b: int | 0 <= b < 256
  type Bytes = seq<byte>

  /** What a caller of the parser can observe when an operation fails. */
  datatype Error =
    | ManifestFetchFailed        // GET of the playlist raised; wrapped as VideoParserError
    | NotM3u8                    // the playlist text has no "#EXTM3U"
    | KeyFetchFailed             // GET of the key raised; wrapped as VideoParserError
    | RefererUnavailable         // segment_url.split('/')[2] raised IndexError
    | SegmentFetchFailed         // the third GET of a segment raised; wrapped as VideoParserError
    | RequestFailed              // the single GET of an unencrypted segment raised
    | InvalidIv                  // bytes.fromhex or int.to_bytes raised
    | DecryptFailed              // the AES-CBC decryptor raised
    | EmptyPlaintext             // decrypted_data[-1] raised IndexError
    | TooManyFailures(failed: nat)
    | Incomplete(succeeded: nat, total: nat)

  /**
   * The HTTP side, as total functions: None stands for any RequestException,
   * a transport failure or a non-success status seen by raise_for_status.
   * A segment GET is answered according to the URL and the number of the
   * attempt (0, 1, 2) made for it.
   */
  datatype Network = Network(
    manifest: string -> Option<string>,
    key: string -> Option<Bytes>,
    segment: string -> nat -> Option<Bytes>)

  /** AES-128-CBC decryption of a whole buffer with a key and an IV; None when it raises. */
  type Decryptor = (Bytes, Bytes, Bytes) -> Option<Bytes>

  /** One GET issued by the downloader, in the order issued. */
  datatype Request =
    | ManifestRequest(url: string)
    | KeyRequest(uri: string)
    | SegmentRequest(url: string, attempt: nat, referer: Option<string>)
}

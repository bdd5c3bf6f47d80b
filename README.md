# Xiaoe-tech HLS downloader and account configuration, in Dafny

This project models two parts of the AI-Media2Doc backend. Everything else in the repository is outside the model.

The first part is the HLS (HTTP Live Streaming, RFC 8216) downloader of `XiaoETongParser`. It covers:

- the playlist checks of `parse_m3u8`;
- reading the `#EXT-X-KEY` tag (`_parse_encryption`);
- pairing `#EXTINF` tags with segment URIs (`_parse_ts_segments`);
- fetching and decrypting one segment (`download_and_decrypt_segment`): the three-attempt retry loop, the choice of the AES-CBC IV and the removal of the PKCS#7 padding;
- the segment loop of `download_video`, which writes the good segments in order and aborts once more than a tenth of the segments have failed;
- the two helpers that read a stream address out of API data and a lesson id out of a page address.

The second part is `XiaoEConfig`. It covers:

- the fallback of its settings to the environment;
- the request headers it builds;
- the identifiers it reads out of a course page address;
- the check of the configured cookie.

Modules:

- `Wrappers` holds `Option` and `Result`.
- `Text` holds a leftmost search (Python's `re.search`), runs of a character class (greedy `[...]*`), `str.split` on one character, `str.rfind`, and the facts about them.
- `HlsTypes` holds bytes, the errors, the network and the record of requests.
- `Manifest` covers `parse_m3u8`, `_parse_encryption` and `_parse_ts_segments`.
- `Segment` covers hex decoding, `int.to_bytes`, the IV choice, unpadding, the Referer header, the retry loop and `download_and_decrypt_segment`.
- `Download` covers `get_decryption_key`, `download_video` and the properties of a whole run.
- `ApiData` covers `_extract_video_url_from_data`.
- `XiaoeUrls` holds the regular expressions of `extract_info_from_url` and `_extract_resource_id`.
- `Config` holds the `XiaoEConfig` class.

HTTP is a `Network` value of total functions. `None` stands for a `RequestException` or a status rejected by `raise_for_status`. A segment GET is answered according to its URL and the number of the attempt. Every GET the code issues is appended to a trace, so the order and number of requests can be stated. AES-CBC decryption is a `Decryptor` function, where `None` means it raised. `urljoin` and `urlparse` are function parameters. Exceptions become `Failure` values of the `Error` datatype.

## Behaviour of the code as written

Each item below is what the code does at the cited line. The model follows it:

- **No IV attribute means the all-zero IV for every segment** (video_parser.py:574-575). When the key tag has no `IV=0x...`, `_parse_encryption` records 32 '0' characters (line 515). That string has 32 characters, so `download_and_decrypt_segment` decodes it as hex (lines 574-575). Every segment is then decrypted with 16 zero bytes, and the IV derived from the segment index (line 578) is never used for such a playlist. See `Segment.DefaultIvIsZeroForEverySegment`.
- **The completeness check cannot fire** (video_parser.py:639). The loop aborts as soon as failures exceed a tenth of the segments (line 634). A loop that runs to the end therefore has at least 90% good segments, so the "fewer than 80%" error (line 639) is unreachable. For example, a 100-segment run with 79 successes can never reach line 639. See `Download.IncompleteIsUnreachable`.
- **A last byte of 0 empties the buffer** (video_parser.py:584-586). `decrypted_data[:-0]` is empty (line 586). A pad length larger than the buffer also empties it. See `Segment.Unpad`.
- **A title is captured instead of the URI** (video_parser.py:527-528). In `#EXTINF:<duration>,<title>` the pattern `\s*([^\s#]+)` captures the title (line 528), so the next line's URI is not taken. See `Manifest.TitleCapturedInPlaceOfUri`.
- **An EXTINF tag followed by a '#' line yields no segment** (video_parser.py:528). If the comma is followed, after white space, by a comment line or by the end of the text, the tag yields nothing. See `Manifest.ExtinfBeforeCommentLine`.
- **Unencrypted segments get one GET and no retry** (video_parser.py:618-621). See `Download.PlainRequests`.
- **Any IV text is recorded** (video_parser.py:514-515, 574). The IV text after `IV=0x` is recorded whatever its length. Only a 32-character one is used as it is; any other length falls back to the segment index.

## Model

| member | source | states |
|---|---|---|
| Text.Find | backend/actions/video_parser.py:498 | the position found is the leftmost one where the pattern matches; None exactly when it matches nowhere, which is how `re.search` scans |
| Text.Contains | backend/actions/video_parser.py:475 | `sub in s` holds exactly when `sub` starts at some position of `s` |
| Text.FirstLiteralRun | backend/actions/video_parser.py:265 | the leftmost position where `lit` is followed by a class character; None exactly when there is none |
| Text.RunAfterMatch | backend/actions/video_parser.py:265 | at such a position the text reads `lit` then a non-empty run of class characters that is maximal: the character after it is outside the class, or the text ends there |
| Text.LiteralThenRun | backend/actions/video_parser.py:265 | the group of `lit(C+)` as `re.search` returns it: `lit` plus the group start at the leftmost matching position, and the group is the whole (greedy) run of class characters there; None exactly when no position has `lit` followed by a class character |
| Text.LiteralThenRunIs | backend/actions/video_parser.py:265 | conversely, a maximal non-empty run after `lit` at the leftmost matching position is the group returned |
| Text.Split | backend/actions/xiaoe_config.py:120 | `str.split` on one character, as used for the host labels here, for the pieces of a segment URL (video_parser.py:556) and for the '&' pieces of a query: at least one piece, and no piece contains the separator |
| Text.JoinSplit | backend/actions/xiaoe_config.py:120 | joining the pieces of a split with the separator gives back the string |
| Text.SplitJoin | backend/actions/xiaoe_config.py:120 | splitting the join of separator-free pieces gives back the pieces |
| Text.LastIndexOf | backend/actions/video_parser.py:525 | the position of the last occurrence of a character: it holds that character and none follows; None exactly when the character is absent |
| XiaoeUrls.AppIdMatch | backend/actions/xiaoe_config.py:88-90 | the group of `app([a-zA-Z0-9]+)\.` in the host: a non-empty alphanumeric run, with `app` + run + `.` starting at the leftmost position where the pattern matches; None exactly when no position matches |
| XiaoeUrls.AppIdOfShopHost | backend/actions/xiaoe_config.py:86-90 | a host `app<code>.<domain>` with an alphanumeric code yields that code |
| XiaoeUrls.CourseKind | backend/actions/xiaoe_config.py:94 | the `[^/]+` part of a course path match is non-empty and free of '/' |
| XiaoeUrls.CourseGroupRun | backend/actions/xiaoe_config.py:94 | the group is `p_` followed by alphanumerics, and its run ends where the alphanumeric run of the text ends (greedy) |
| XiaoeUrls.CourseGroupSpelled | backend/actions/xiaoe_config.py:94 | the matched text spells `/p/course/<kind>/p_<run>` |
| XiaoeUrls.CourseGroupShape | backend/actions/xiaoe_config.py:94-96 | a course path match reads `/p/course/<kind>/<group>` with a non-empty kind free of '/', and the group is `p_` plus the maximal alphanumeric run there |
| XiaoeUrls.CourseProductId | backend/actions/xiaoe_config.py:94-96 | the group of `/p/course/[^/]+/(p_[a-zA-Z0-9]+)`: `p_` plus the maximal alphanumeric run, read at the leftmost position where the pattern matches; None exactly when no position matches |
| XiaoeUrls.LessonIdAfter | backend/actions/xiaoe_config.py:108-115 | the group of `<path>(l_[a-zA-Z0-9]+)` for the detail path (here and video_parser.py:266) and the live path: `l_` plus the maximal alphanumeric run, with `<path>` + group at the leftmost matching position; None exactly when no position matches |
| XiaoeUrls.LessonIdAfterIs | backend/actions/xiaoe_config.py:108-115 | conversely, `<path>l_<code>` at the leftmost matching position with a maximal alphanumeric code yields `l_<code>` |
| XiaoeUrls.QueryPair | backend/actions/xiaoe_config.py:99 | one query piece read as `parse_qs` reads it: the name before the first '=' and a non-empty value after it; dropped exactly when there is no '=' or the only '=' is last |
| XiaoeUrls.QueryPairOf | backend/actions/xiaoe_config.py:99 | a piece `name=value` with a name free of '=' and a non-empty value reads back as that pair |
| XiaoeUrls.FirstNamed | backend/actions/xiaoe_config.py:100-101 | the index of the first piece that `parse_qs` keeps for the name; None exactly when none is kept |
| XiaoeUrls.FirstValue | backend/actions/xiaoe_config.py:100-101 | `query_params[name][0]`: the value of the first kept piece with that name; None exactly when there is none |
| XiaoeUrls.QueryValue | backend/actions/xiaoe_config.py:99-101 | the value of the first '&' piece that `parse_qs` keeps for the name, with no earlier piece kept for it; None exactly when no piece is kept for the name |
| XiaoeUrls.QueryValueOfLeadingPair | backend/actions/xiaoe_config.py:99-101 | a parameter at the head of the query string is found with its value |
| XiaoeUrls.FromProductId | backend/actions/xiaoe_config.py:99-104 | the `from` value when it starts with `p_`, and nothing otherwise |
| XiaoeUrls.DomainAppId | backend/actions/xiaoe_config.py:119-125 | the host-label guess is longer than three characters and contains no dot |
| XiaoeUrls.DomainAppIdOfLabels | backend/actions/xiaoe_config.py:119-125 | for a host made of two or more labels, the guess is the next-to-last label exactly when it is longer than three characters |
| XiaoeUrls.NoDomainAppIdWithoutDot | backend/actions/xiaoe_config.py:120-121 | a host without a dot has one label and yields no guess |
| XiaoeUrls.CustomDomainExample | backend/actions/xiaoe_config.py:117-124 | `www.hctestedu.com` yields `hctestedu` |
| Config.Or | backend/actions/xiaoe_config.py:27-29 | `a or b`: `a` when it is a non-empty string, otherwise `b` |
| Config.XiaoEConfig.constructor | backend/actions/xiaoe_config.py:18-41 | each of cookie, app id and host is the argument when it is a non-empty string, else the environment's value; the base headers are the fixed eight |
| Config.XiaoEConfig.GetHeaders | backend/actions/xiaoe_config.py:43-63 | every base header is kept unchanged; Cookie is present exactly when the cookie is set, and equals it; Referer and Origin are present exactly when a referer is given, equal to it and to `scheme://netloc`; no other key appears; the base headers are not modified; a referer `urlparse` rejects raises (None) |
| Config.XiaoEConfig.ExtractInfoFromUrl | backend/actions/xiaoe_config.py:65-132 | host is the netloc; app id is `app` plus the host's match, else the host-label guess; a `from=p_...` value overrides the course path's product; a live page id overrides a detail id; a parse failure leaves all four entries empty |
| Config.XiaoEConfig.ValidateConfig | backend/actions/xiaoe_config.py:134-153 | valid exactly when a cookie is set, contains '=' and is longer than ten characters; each failure has its own message, checked in order |
| ApiData.FirstTruthyFrom | backend/actions/video_parser.py:412-414 | the first listed field that is present with a truthy value; None exactly when there is none |
| ApiData.FieldValue | backend/actions/video_parser.py:412-414 | the value of a truthy listed field with no earlier listed field truthy; None exactly when no listed field is truthy |
| ApiData.VideoUrlOf | backend/actions/video_parser.py:404-422 | the result is truthy; a truthy top-level field wins, and the result is then the first such field's value; otherwise the first truthy field of a `media` object; None exactly when neither level has one |
| ApiData.FirstListedFieldWins | backend/actions/video_parser.py:412-414 | conversely, a truthy listed field with no earlier one truthy is the address |
| ApiData.TopLevelShadowsMedia | backend/actions/video_parser.py:412-420 | with a truthy listed field at the top level, the `media` object does not affect the result |
| ApiData.FirstTruthyAgree | backend/actions/video_parser.py:412-414 | two objects with the same truthy fields pick the same field |
| ApiData.FindTruthyField | backend/actions/video_parser.py:412-414 | the loop over the field names returns the first truthy field's value |
| ApiData.ExtractVideoUrlFromData | backend/actions/video_parser.py:404-422 | the two loops return exactly `VideoUrlOf(data)` |
| Manifest.KeyAttributes | backend/actions/video_parser.py:498-502 | the group of `#EXT-X-KEY:(.*)`: the rest of the line after the leftmost key tag, up to the line end or the end of the text, with no line end in it; None exactly when no key tag occurs |
| Manifest.UriAttr | backend/actions/video_parser.py:505-509 | the group of `URI="([^"]*)"`: the text between the leftmost `URI="` that has a closing quote and that quote, with no quote in it; None exactly when no position matches |
| Manifest.IvAttr | backend/actions/video_parser.py:514 | the group of `IV=0x([0-9A-Fa-f]+)`: the maximal hex run after the leftmost `IV=0x` followed by a hex digit; None exactly when there is none |
| Manifest.KeyTagContainsMarker | backend/actions/video_parser.py:495-500 | a key tag contains `EXT-X-KEY`, so the substring test never decides on its own |
| Manifest.ParseEncryption | backend/actions/video_parser.py:493-521 | None without `EXT-X-KEY`, and None exactly when there is no key tag or its line has no URI; otherwise the method is always AES-128, a URI not starting with `http` is joined to the playlist URL, and the IV is the hex after `IV=0x` or 32 '0' characters |
| Manifest.DefaultIvIsHex | backend/actions/video_parser.py:515 | the default IV is a non-empty run of hex digits |
| Manifest.EncryptionIvIsHex | backend/actions/video_parser.py:514-515 | the recorded IV is always a non-empty run of hex digits |
| Manifest.ExtinfGroup | backend/actions/video_parser.py:528 | a match at the front puts its group strictly after the tag and within the text |
| Manifest.ExtinfGroupShape | backend/actions/video_parser.py:528 | a match reads: the tag, a duration without commas, the comma, white space only, then a maximal run of characters that are neither white space nor '#' |
| Manifest.NextExtinf | backend/actions/video_parser.py:529 | the search moves forward: the next match ends after the current position and within the text |
| Manifest.NextExtinfIsUriRun | backend/actions/video_parser.py:528-529 | a found group is non-empty and has no white space and no '#' |
| Manifest.CapturesAreUriRuns | backend/actions/video_parser.py:528-529 | every captured reference is non-empty and has no white space and no '#' |
| Manifest.CapturesBound | backend/actions/video_parser.py:528-529 | every match spans at least ten characters, so `re.findall` yields at most one capture per ten characters of text |
| Manifest.CapturesOfGroup | backend/actions/video_parser.py:529 | a match at the front yields its group as the first capture, and `re.findall` resumes at the end of that match |
| Manifest.CapturesSkip | backend/actions/video_parser.py:529 | where no match starts, `re.findall` moves on by one character |
| Manifest.CapturesSkipNoHash | backend/actions/video_parser.py:529 | text without '#' before a match contributes no capture |
| Manifest.EntryGroup | backend/actions/video_parser.py:528 | in `#EXTINF:<d>,<ws><token><rest>` the group spans exactly the token |
| Manifest.CapturesOfMatchedEntry | backend/actions/video_parser.py:528-529 | such an entry contributes its token, and the search resumes right after it |
| Manifest.ExtinfBeforeCommentLine | backend/actions/video_parser.py:528 | an EXTINF whose comma is followed, after white space, by a '#' line or the end yields no match |
| Manifest.TitleCapturedInPlaceOfUri | backend/actions/video_parser.py:528 | with a title after the comma, the title is captured and the URI line is left to later matches |
| Manifest.CapturesOfEntryText | backend/actions/video_parser.py:528-529 | a rendered `#EXTINF:<d>,` + newline + URI entry contributes its URI |
| Manifest.CapturesOfEntries | backend/actions/video_parser.py:528-529 | the captures of rendered entries are their URIs, in order |
| Manifest.CapturesAfterHeader | backend/actions/video_parser.py:529 | the `#EXTM3U` header contributes no capture |
| Manifest.CapturesOfPlaylist | backend/actions/video_parser.py:528-529 | a rendered playlist yields exactly its entries' URIs, in order |
| Manifest.RenderedPlaylistSegments | backend/actions/video_parser.py:523-538 | a playlist of N well-formed entries passes the `#EXTM3U` test and yields N segment URLs; the k-th is the k-th URI, kept if it starts with `http`, otherwise joined to the directory |
| Manifest.Directory | backend/actions/video_parser.py:525 | `rsplit('/', 1)[0] + '/'`: the URL up to and including its last '/', or the URL plus '/' when it has none |
| Manifest.SegmentUrls | backend/actions/video_parser.py:523-538 | one URL per capture, in order; a capture starting with `http` is kept, any other is joined to the directory |
| Manifest.ParseTsSegments | backend/actions/video_parser.py:523-538 | one URL per capture, in order; a capture starting with `http` is kept, any other is joined to the directory |
| Manifest.ParseM3u8 | backend/actions/video_parser.py:468-491 | a failed GET gives the fetch error; text without `#EXTM3U` gives the M3U8 error; otherwise the key information and the segment URLs, with `total_segments` equal to their number |
| Segment.HexDecode | backend/actions/video_parser.py:575 | `bytes.fromhex`: succeeds exactly on an even number of hex digits, giving half as many bytes |
| Segment.HexDecodeBytes | backend/actions/video_parser.py:575 | byte k is 16 times the value of digit 2k plus the value of digit 2k+1 |
| Segment.HexRoundTrip | backend/actions/video_parser.py:575 | decoding what `bytes.hex()` writes gives back the bytes |
| Segment.HexDecodeZeros | backend/actions/video_parser.py:515 | 2n '0' digits decode to n zero bytes |
| Segment.ToBigEndian | backend/actions/video_parser.py:578 | `to_bytes(len, 'big')` succeeds exactly when the number fits, with `len` bytes |
| Segment.BigEndianRoundTrip | backend/actions/video_parser.py:578 | the bytes read back as the same number |
| Segment.ChooseIv | backend/actions/video_parser.py:574-578 | always 16 bytes; a 32-character IV string gives exactly its hex decoding (failing exactly when it is not hex), the same for every segment; any other gives the segment index in big-endian order |
| Segment.ExplicitIvBytes | backend/actions/video_parser.py:574-575 | a 32-digit hex IV gives the same 16 bytes for every segment, byte k read from digits 2k and 2k+1 |
| Segment.DefaultIvIsZeroForEverySegment | backend/actions/video_parser.py:515 | the default IV string gives the all-zero IV for every segment index |
| Segment.IndexIvsDiffer | backend/actions/video_parser.py:578 | with an IV string of another length, two different segments get different IVs |
| Segment.Unpad | backend/actions/video_parser.py:584-586 | fails exactly on an empty buffer; the result is a prefix; a last byte above 16 leaves the buffer unchanged; 0 empties it; 1 to 16 drops that many bytes, clamped at empty |
| Segment.UnpadPad | backend/actions/video_parser.py:584-586 | PKCS#7 padding fills whole 16-byte blocks, and removing it gives back the data |
| Segment.Referer | backend/actions/video_parser.py:556 | the Referer exists exactly when the URL splits into three or more pieces at '/' |
| Segment.RefererOfUrl | backend/actions/video_parser.py:556 | for `scheme//host/...` the Referer is `scheme//host/` |
| Segment.NoRefererWithoutSlash | backend/actions/video_parser.py:556 | a URL without '/' has no Referer, so the segment fails before any request |
| Segment.AttemptsFrom | backend/actions/video_parser.py:560-569 | between one and three GETs; every GET but the last failed; fewer than three means the last succeeded |
| Segment.Attempts | backend/actions/video_parser.py:563 | the GETs issued are attempts 0, 1, ... of the segment's URL, each with the Referer |
| Segment.FetchWithRetry | backend/actions/video_parser.py:560-569 | the loop returns the last attempt's answer after exactly the attempts the rule allows; no body means three failed GETs |
| Segment.Plaintext | backend/actions/video_parser.py:572-590 | an empty key returns the body as it is; otherwise a bad IV fails, a decryption that raises fails, an empty decrypted buffer fails (the `[-1]` index), and any other buffer gives exactly its unpadding |
| Segment.SegmentOutcome | backend/actions/video_parser.py:553-590 | no Referer: failure before any GET; otherwise one to three GETs; a last GET that failed means three GETs and the fetch error; otherwise the outcome is the plaintext of the last GET's body |
| Segment.SegmentRequestsShape | backend/actions/video_parser.py:553-569 | no GET without a Referer; otherwise at most three GETs of the URL, numbered from 0, each with the Referer, all but the last failed |
| Segment.SegmentFetchFailsAfterThreeAttempts | backend/actions/video_parser.py:566-568 | a segment fails at the network exactly when a Referer exists and all three GETs failed |
| Segment.RetryRecovers | backend/actions/video_parser.py:561-569 | one failed GET followed by a good one costs two GETs and loses nothing |
| Segment.EmptyKeyPassesBodyThrough | backend/actions/video_parser.py:572 | with an empty key the first good body is returned undecrypted after one GET |
| Segment.DownloadAndDecryptSegment | backend/actions/video_parser.py:549-593 | the method returns exactly the specified outcome and requests |
| Download.Results | backend/actions/video_parser.py:613-621 | one result per segment |
| Download.WrittenGrows | backend/actions/video_parser.py:623 | the file only grows: what the first j segments wrote stays at the front of what the first k write |
| Download.Assemble | backend/actions/video_parser.py:609-640 | the trace starts with the GETs before the loop; any failure is the abort or the completeness error; an abort is reported as too many failures; without an abort the file holds every good segment's data and the trace every segment's GETs |
| Download.PlaylistRun | backend/actions/video_parser.py:601-640 | the playlist GET comes first; a failed key GET ends the run right after it with an empty file; the only other failures are the abort and the completeness error |
| Download.ExpectedRun | backend/actions/video_parser.py:595-642 | the playlist GET comes first; a failed playlist GET, or a playlist without `#EXTM3U`, ends the run after that one GET with the matching error and an empty file |
| Download.Successes | backend/actions/video_parser.py:624 | the count of good segments among the first k is at most k |
| Download.FirstAbortFrom | backend/actions/video_parser.py:634 | the first segment whose failure pushes the failed count above a tenth; None exactly when none does |
| Download.GetDecryptionKey | backend/actions/video_parser.py:540-547 | a failed GET gives the key error; otherwise the body is the key |
| Download.DownloadVideo | backend/actions/video_parser.py:595-642 | the method's run is the specified run of the whole download |
| Download.DownloadPlaylist | backend/actions/video_parser.py:601-610 | the key GET only for an encrypted playlist, its failure ending the run; then the segment loop |
| Download.FetchOne | backend/actions/video_parser.py:614-621 | the loop body's result and requests are the specified ones for that segment |
| Download.AccountStep | backend/actions/video_parser.py:623-624 | one more segment adds one to the count and its data to the file when it succeeds, and nothing when it fails |
| Download.FirstAbortAt | backend/actions/video_parser.py:634-635 | the first failure that crosses the line is where the run stops |
| Download.DownloadSegments | backend/actions/video_parser.py:609-640 | the loop with its running count, file and trace produces exactly the assembled run |
| Download.FailuresWithinTenth | backend/actions/video_parser.py:634 | with no abort, failures so far are at most a tenth of the total |
| Download.IncompleteIsUnreachable | backend/actions/video_parser.py:639-640 | a run that finishes the loop has at least nine in ten good segments and completes; any failure is the abort |
| Download.AbortReportsTooManyFailures | backend/actions/video_parser.py:634-635 | an abort reports a failed count above a tenth of the total, at the first segment where the count passed it |
| Download.AllGoodCompletes | backend/actions/video_parser.py:612-642 | when every segment succeeds the run completes and the file holds every segment's data in order |
| Download.OneFailureTolerated | backend/actions/video_parser.py:634 | with ten or more segments a single failure still completes |
| Download.SmallPlaylistAbortsOnFirstFailure | backend/actions/video_parser.py:613-635 | with fewer than ten segments the first failure aborts at once: the file holds the earlier segments and no later segment is requested |
| Download.PlainRequests | backend/actions/video_parser.py:618-621 | unencrypted: exactly one GET per segment, in order, without a Referer |
| Download.FetchSegmentShape | backend/actions/video_parser.py:613-621 | one segment costs at most three GETs, all of its own URL; unencrypted, exactly one GET without a Referer, and the segment is good exactly when it answered, with that body |
| Download.RequestsAreSegmentGets | backend/actions/video_parser.py:613-621 | every request of the segment loop is a segment GET |
| Download.AssembledTrace | backend/actions/video_parser.py:601-636 | a run's trace is the GETs before the loop followed by segment GETs only |
| Download.PlaylistKeyRequests | backend/actions/video_parser.py:604-606 | the playlist GET comes first; the key is requested exactly once, right after it, when the playlist is encrypted, and never otherwise |
| Download.KeyRequestedOnce | backend/actions/video_parser.py:595-621 | the whole download starts with the playlist GET and requests the key at most once, as the second request |

## Left out

- HTTP (`requests.get`, `raise_for_status`, headers, timeouts) is left out: each GET is an abstract answer, and the headers of segment GETs are represented only by the Referer.
- AES-CBC (`Cryptodome`) is an abstract `Decryptor`, and its failures are one error.
- `time.sleep` pacing (lines 569 and 628-629), `print`, and the choice and opening of the output path (lines 597-598) are left out. The output file is an append-only byte sequence.
- `urljoin` (RFC 3986 section 5.2) and `urlparse` are abstract parameters. `urlparse` returns only scheme, netloc, path and query.
- `bytes.fromhex` skipping white space between bytes is not modelled. An IV string with white space is treated as not hex; the recorded IV never holds any.
- `parse_qs` percent-decoding and '+' to space are not modelled. Names and values are compared as they appear, and ';' is not a separator.
- The float thresholds `total * 0.1` and `total * 0.8` are exact integer comparisons (`10 * failed > total`, `5 * succeeded < 4 * total`). They agree with the floating-point ones for segment counts below 2^52.
- JSON numbers in API data are integers only. Floating-point values and their truthiness are not modelled.
- `XiaoEConfig.base_headers` is not deep-copied; the copy is a map value.
- The scraping code (`extract_m3u8_url`, `is_valid_m3u8_url`, `parse_video_info`, `_get_video_info_from_api`, `_check_xiaoe_permissions`, `is_xiaoe_url`) is left out. So are the action handlers, `test_authentication`, `get_user_info`, backend/video_server.py and backend/env.py: they are network calls, request plumbing or environment reads. The environment's values are constructor parameters.
- A segment GET is answered according to its URL and the number of the attempt only. A URL listed twice in a playlist therefore gets the same answers both times; a server whose answers change over time is not modelled.
- `Config.XiaoEConfig.GetHeaders` returns None where `urlparse` raises, instead of raising.

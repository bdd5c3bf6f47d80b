/**
 * download_and_decrypt_segment: the Referer header, the three GET attempts,
 * the choice of the AES-CBC IV, the decryption and the removal of the
 * PKCS#7 padding.
 */
module Segment {
  import opened Wrappers
  import opened Text
  import opened HlsTypes
  import Manifest

  // ----------------------------------------------------------------------
  // bytes.fromhex / bytes.hex

  function HexDigitValue(c: char): (v: nat)
    requires IsHexDigit(c)
    ensures v < 16
  {
    if '0' <= c <= '9' then c as int - '0' as int
    else if 'a' <= c <= 'f' then c as int - 'a' as int + 10
    else c as int - 'A' as int + 10
  }

  /** The lower-case digit bytes.hex() writes for a value below 16. */
  function HexDigitChar(v: nat): (c: char)
    requires v < 16
    ensures IsHexDigit(c) && HexDigitValue(c) == v
  {
    if v < 10 then ('0' as int + v) as char else ('a' as int + v - 10) as char
  }

  predicate AllHex(s: string) {
    forall i :: 0 <= i < |s| ==> IsHexDigit(s[i])
  }

  /**
   * bytes.fromhex on a string of digits: two digits per byte, the first one
   * the high half; None (ValueError) for an odd length or a character that is
   * not a hexadecimal digit.
   */
  function HexDecode(s: string): (r: Option<Bytes>)
    ensures r.Some? <==> |s| % 2 == 0 && AllHex(s)
    ensures r.Some? ==> |r.value| == |s| / 2 && |s| == 2 * |r.value|
    decreases |s|
  {
    if |s| == 0 then Some([])
    else if |s| == 1 then None
    else if !IsHexDigit(s[0]) || !IsHexDigit(s[1]) then None
    else
      match HexDecode(s[2..])
      case None =>
        assert !AllHex(s[2..]) ==> !AllHex(s) by {
          if !AllHex(s[2..]) {
            var i :| 0 <= i < |s[2..]| && !IsHexDigit(s[2..][i]);
            assert s[i + 2] == s[2..][i];
          }
        }
        None
      case Some(rest) =>
        assert AllHex(s) by {
          forall i | 2 <= i < |s| ensures IsHexDigit(s[i]) {
            assert s[i] == s[2..][i - 2];
          }
        }
        Some([16 * HexDigitValue(s[0]) + HexDigitValue(s[1])] + rest)
  }

  /** Byte k of the decoded bytes is the value of digits 2k (the high half) and 2k+1. */
  lemma {:induction false} HexDecodeBytes(s: string)
    requires HexDecode(s).Some?
    ensures forall k :: 0 <= k < |HexDecode(s).value| ==>
              HexDecode(s).value[k] == 16 * HexDigitValue(s[2 * k]) + HexDigitValue(s[2 * k + 1])
    decreases |s|
  {
    if |s| > 0 {
      var rest := HexDecode(s[2..]).value;
      HexDecodeBytes(s[2..]);
      forall k | 1 <= k < |HexDecode(s).value|
        ensures HexDecode(s).value[k] == 16 * HexDigitValue(s[2 * k]) + HexDigitValue(s[2 * k + 1])
      {
        assert HexDecode(s).value[k] == rest[k - 1];
        assert s[2..][2 * (k - 1)] == s[2 * k] && s[2..][2 * (k - 1) + 1] == s[2 * k + 1];
      }
    }
  }

  /** bytes.hex(): two lower-case digits per byte. */
  function HexEncode(b: Bytes): (s: string)
    ensures |s| == 2 * |b|
  {
    if b == [] then [] else [HexDigitChar(b[0] / 16), HexDigitChar(b[0] % 16)] + HexEncode(b[1..])
  }

  /** Decoding what bytes.hex() wrote gives back the bytes. */
  lemma {:induction false} HexRoundTrip(b: Bytes)
    ensures HexDecode(HexEncode(b)) == Some(b)
  {
    if b != [] {
      var s := HexEncode(b);
      HexRoundTrip(b[1..]);
      assert s[2..] == HexEncode(b[1..]);
      assert HexDigitValue(s[0]) == b[0] / 16 && HexDigitValue(s[1]) == b[0] % 16;
      assert [b[0]] + b[1..] == b;
    }
  }

  function Zeros(n: nat): (z: Bytes)
    ensures |z| == n && forall i :: 0 <= i < n ==> z[i] == 0
  {
    seq(n, _ => 0)
  }

  /** A run of 2n '0' digits decodes to n zero bytes. */
  lemma {:induction false} HexDecodeZeros(n: nat)
    ensures HexDecode(seq(2 * n, _ => '0')) == Some(Zeros(n))
  {
    if n > 0 {
      var s := seq(2 * n, _ => '0');
      HexDecodeZeros(n - 1);
      assert s[2..] == seq(2 * (n - 1), _ => '0');
      assert [0] + Zeros(n - 1) == Zeros(n);
    }
  }

  // ----------------------------------------------------------------------
  // int.to_bytes(16, byteorder='big')

  function Pow256(n: nat): (p: nat)
    ensures p >= 1
  {
    if n == 0 then 1 else 256 * Pow256(n - 1)
  }

  /** x.to_bytes(len, 'big'): the most significant byte first; None (OverflowError) when x does not fit. */
  function ToBigEndian(x: nat, len: nat): (r: Option<Bytes>)
    ensures r.Some? <==> x < Pow256(len)
    ensures r.Some? ==> |r.value| == len
  {
    if len == 0 then (if x == 0 then Some([]) else None)
    else
      match ToBigEndian(x / 256, len - 1)
      case None => None
      case Some(high) => Some(high + [x % 256])
  }

  /** int.from_bytes(b, 'big'). */
  function FromBigEndian(b: Bytes): nat {
    if b == [] then 0 else FromBigEndian(b[..|b| - 1]) * 256 + b[|b| - 1]
  }

  /** The bytes written by to_bytes read back as the same number. */
  lemma {:induction false} BigEndianRoundTrip(x: nat, len: nat)
    requires x < Pow256(len)
    ensures FromBigEndian(ToBigEndian(x, len).value) == x
  {
    if len > 0 {
      var high := ToBigEndian(x / 256, len - 1).value;
      BigEndianRoundTrip(x / 256, len - 1);
      var b := high + [x % 256];
      assert b[..|b| - 1] == high;
    }
  }

  // ----------------------------------------------------------------------
  // The IV

  /**
   * The IV of a segment: a 32-character IV string is decoded as hex (and a
   * non-hex one raises); any other is replaced by the segment's index as 16
   * big-endian bytes.
   */
  function ChooseIv(iv: string, index: nat): (r: Option<Bytes>)
    ensures r.Some? ==> |r.value| == 16
    ensures |iv| == 32 ==> (r.Some? <==> AllHex(iv)) && r == HexDecode(iv)
    ensures |iv| != 32 ==> (r.Some? <==> index < Pow256(16))
    ensures |iv| != 32 && r.Some? ==> FromBigEndian(r.value) == index
  {
    if |iv| == 32 then HexDecode(iv)
    else if index < Pow256(16) then
      BigEndianRoundTrip(index, 16);
      ToBigEndian(index, 16)
    else None
  }

  /**
   * Without an IV attribute the playlist's IV is 32 '0' digits, which has
   * 32 characters: every segment is then decrypted with the all-zero IV, and
   * the index-derived IV is never used.
   */
  lemma {:induction false} DefaultIvIsZeroForEverySegment(index: nat)
    ensures ChooseIv(Manifest.DefaultIv, index) == Some(Zeros(16))
  {
    HexDecodeZeros(16);
    assert Manifest.DefaultIv == seq(2 * 16, _ => '0');
  }

  /**
   * A 32-digit IV gives every segment the same 16 bytes, byte k being the
   * value of digits 2k and 2k+1, whatever the segment's index.
   */
  lemma {:induction false} ExplicitIvBytes(iv: string, index: nat)
    requires |iv| == 32 && AllHex(iv)
    ensures ChooseIv(iv, index).Some? && ChooseIv(iv, index) == ChooseIv(iv, 0)
    ensures forall k :: 0 <= k < 16 ==> ChooseIv(iv, index).value[k] == 16 * HexDigitValue(iv[2 * k]) + HexDigitValue(iv[2 * k + 1])
  {
    HexDecodeBytes(iv);
  }

  /** Two segments below 2^128 with an IV string of another length get different IVs. */
  lemma {:induction false} IndexIvsDiffer(iv: string, i: nat, j: nat)
    requires |iv| != 32 && i < Pow256(16) && j < Pow256(16) && i != j
    ensures ChooseIv(iv, i).Some? && ChooseIv(iv, j).Some? && ChooseIv(iv, i) != ChooseIv(iv, j)
  {
  }

  // ----------------------------------------------------------------------
  // Padding

  /**
   * The padding removal as written: the last byte p is read (an empty buffer
   * raises IndexError); p <= 16 cuts `data[:-p]`, which for p == 0 is the
   * empty buffer and for p > |data| is clamped to the empty buffer; p > 16
   * leaves the buffer alone.
   */
  function Unpad(data: Bytes): (r: Option<Bytes>)
    ensures r.None? <==> data == []
    ensures r.Some? ==> |r.value| <= |data| && r.value == data[..|r.value|]
    ensures r.Some? && data[|data| - 1] > 16 ==> r.value == data
    ensures r.Some? && data[|data| - 1] == 0 ==> r.value == []
    ensures r.Some? && 0 < data[|data| - 1] <= 16 ==>
      |r.value| == if data[|data| - 1] <= |data| then |data| - data[|data| - 1] else 0
  {
    if data == [] then None
    else
      var p := data[|data| - 1];
      if p > 16 then Some(data)
      else if p == 0 || p > |data| then Some([])
      else Some(data[..|data| - p])
  }

  /** PKCS#7 padding to 16-byte blocks: 1 to 16 bytes, each holding the count. */
  function Pad(x: Bytes): (y: Bytes)
  {
    var n := 16 - |x| % 16;
    x + seq(n, _ => n)
  }

  /** Padding fills whole blocks and removing it gives back the plaintext. */
  lemma {:induction false} UnpadPad(x: Bytes)
    ensures |Pad(x)| % 16 == 0 && |Pad(x)| > |x|
    ensures Unpad(Pad(x)) == Some(x)
  {
    var y := Pad(x);
    var n := 16 - |x| % 16;
    assert y[|y| - 1] == n;
    assert y[..|y| - n] == x;
  }

  // ----------------------------------------------------------------------
  // Referer

  /** `parts[0] + '//' + parts[2] + '/'` of `segment_url.split('/')`; None (IndexError) for fewer than three parts. */
  function Referer(url: string): (r: Option<string>)
    ensures r.Some? <==> |Split(url, '/')| >= 3
  {
    var parts := Split(url, '/');
    if |parts| < 3 then None else Some(parts[0] + "//" + parts[2] + "/")
  }

  /** The first piece of `host + rest` is the host, when `rest` is empty or starts a path. */
  lemma {:induction false} SplitHostFirst(host: string, rest: string)
    requires '/' !in host
    requires rest == [] || rest[0] == '/'
    ensures Split(host + rest, '/')[0] == host
  {
    if rest == [] {
      assert host + rest == host;
      SplitNoSep(host, '/');
    } else {
      assert host + rest == host + ['/'] + rest[1..];
      SplitCons(host, '/', rest[1..]);
    }
  }

  /** `scheme//tail` splits into the scheme, an empty piece and the pieces of the tail. */
  lemma {:induction false} SplitAfterScheme(url: string, scheme: string, tail: string)
    requires '/' !in scheme
    requires url == scheme + "//" + tail
    ensures Split(url, '/') == [scheme, []] + Split(tail, '/')
  {
    assert url == scheme + ['/'] + ([] + ['/'] + tail);
    SplitCons(scheme, '/', [] + ['/'] + tail);
    SplitCons([], '/', tail);
  }

  /** For `scheme://host/...` the header is `scheme://host/`. */
  lemma {:induction false} RefererOfUrl(url: string, scheme: string, host: string, rest: string)
    requires '/' !in scheme && '/' !in host
    requires rest == [] || rest[0] == '/'
    requires url == scheme + "//" + host + rest
    ensures Referer(url) == Some(scheme + "//" + host + "/")
  {
    assert url == scheme + "//" + (host + rest);
    SplitAfterScheme(url, scheme, host + rest);
    SplitHostFirst(host, rest);
  }

  /** A URL without '/' has no third part: the segment fails before any request. */
  lemma {:induction false} NoRefererWithoutSlash(url: string)
    requires '/' !in url
    ensures Referer(url).None?
  {
    SplitNoSep(url, '/');
  }

  // ----------------------------------------------------------------------
  // Retries

  const MaxRetries: nat := 3

  /** How many GETs the retry loop issues from attempt `a` on: it stops at the first success or after the last attempt. */
  function AttemptsFrom(get: nat -> Option<Bytes>, a: nat): (n: nat)
    requires a < MaxRetries
    ensures a < n <= MaxRetries
    ensures forall j :: a <= j < n - 1 ==> get(j).None?
    ensures n < MaxRetries ==> get(n - 1).Some?
    decreases MaxRetries - a
  {
    if get(a).Some? || a == MaxRetries - 1 then a + 1 else AttemptsFrom(get, a + 1)
  }

  /** The number of GETs issued for one segment. */
  function AttemptsUsed(get: nat -> Option<Bytes>): (n: nat)
    ensures 1 <= n <= MaxRetries
  {
    AttemptsFrom(get, 0)
  }

  /** The GETs of attempts 0 .. n-1, each with the Referer header. */
  function Attempts(url: string, referer: string, n: nat): (reqs: seq<Request>)
    ensures |reqs| == n
    ensures forall j :: 0 <= j < n ==> reqs[j] == SegmentRequest(url, j, Some(referer))
  {
    seq(n, j requires 0 <= j < n => SegmentRequest(url, j, Some(referer)))
  }

  /**
   * The retry loop: GET until a response comes back, at most three times;
   * the third failure is re-raised.
   */
  method FetchWithRetry(url: string, referer: string, net: Network) returns (body: Option<Bytes>, requests: seq<Request>)
    ensures var n := AttemptsUsed(net.segment(url));
      body == net.segment(url)(n - 1) && requests == Attempts(url, referer, n)
    ensures body.None? ==> |requests| == MaxRetries && forall j :: 0 <= j < MaxRetries ==> net.segment(url)(j).None?
  {
    var get := net.segment(url);
    var attempt: nat := 0;
    requests := [];
    while true
      invariant attempt < MaxRetries
      invariant AttemptsFrom(get, attempt) == AttemptsUsed(get)
      invariant requests == Attempts(url, referer, attempt)
      invariant forall j :: 0 <= j < attempt ==> get(j).None?
      decreases MaxRetries - attempt
    {
      var response := get(attempt);
      requests := requests + [SegmentRequest(url, attempt, Some(referer))];
      if response.Some? {
        return response, requests;
      }
      if attempt == MaxRetries - 1 {
        return None, requests;
      }
      attempt := attempt + 1;
    }
  }

  // ----------------------------------------------------------------------
  // One segment

  /**
   * What is done with a downloaded body: returned as it is when the key is
   * empty (falsy); otherwise decrypted with the chosen IV and unpadded.
   */
  function Plaintext(body: Bytes, key: Bytes, iv: string, index: nat, decrypt: Decryptor): (r: Result<Bytes, Error>)
    ensures key == [] ==> r == Success(body)
    ensures key != [] && r.Success? ==>
      exists ivBytes, plain :: ChooseIv(iv, index) == Some(ivBytes) && decrypt(key, ivBytes, body) == Some(plain) && Unpad(plain) == Some(r.value)
    ensures key != [] && ChooseIv(iv, index).None? ==> r == Failure(InvalidIv)
    ensures key != [] && ChooseIv(iv, index).Some? && decrypt(key, ChooseIv(iv, index).value, body).None? ==>
      r == Failure(DecryptFailed)
    ensures key != [] && ChooseIv(iv, index).Some? && decrypt(key, ChooseIv(iv, index).value, body).Some? ==>
      var plain := decrypt(key, ChooseIv(iv, index).value, body).value;
      (plain == [] ==> r == Failure(EmptyPlaintext)) && (plain != [] ==> r == Success(Unpad(plain).value))
  {
    if key == [] then Success(body)
    else
      match ChooseIv(iv, index)
      case None => Failure(InvalidIv)
      case Some(ivBytes) =>
        match decrypt(key, ivBytes, body)
        case None => Failure(DecryptFailed)
        case Some(plain) =>
          match Unpad(plain)
          case None => Failure(EmptyPlaintext)
          case Some(data) => Success(data)
  }

  /**
   * The outcome of download_and_decrypt_segment and the GETs it issues: no
   * Referer, no GET; otherwise the last of one to three GETs decides, its
   * failure being re-raised after the third attempt and its body being
   * decrypted.
   */
  function SegmentOutcome(url: string, key: Bytes, iv: string, index: nat, net: Network, decrypt: Decryptor): (o: (Result<Bytes, Error>, seq<Request>))
    ensures Referer(url).None? ==> o == (Failure(RefererUnavailable), [])
    ensures Referer(url).Some? ==> 1 <= |o.1| <= MaxRetries
    ensures Referer(url).Some? && net.segment(url)(|o.1| - 1).None? ==>
      o.0 == Failure(SegmentFetchFailed) && |o.1| == MaxRetries
    ensures Referer(url).Some? && net.segment(url)(|o.1| - 1).Some? ==>
      o.0 == Plaintext(net.segment(url)(|o.1| - 1).value, key, iv, index, decrypt)
  {
    match Referer(url)
    case None => (Failure(RefererUnavailable), [])
    case Some(referer) =>
      var n := AttemptsUsed(net.segment(url));
      var requests := Attempts(url, referer, n);
      match net.segment(url)(n - 1)
      case None => (Failure(SegmentFetchFailed), requests)
      case Some(body) => (Plaintext(body, key, iv, index, decrypt), requests)
  }

  /**
   * The requests for one segment: none when the Referer cannot be built,
   * otherwise one to three GETs of the segment's URL, numbered from 0, each
   * carrying the Referer, every one but the last answered by a failure.
   */
  lemma {:induction false} SegmentRequestsShape(url: string, key: Bytes, iv: string, index: nat, net: Network, decrypt: Decryptor)
    ensures var (r, reqs) := SegmentOutcome(url, key, iv, index, net, decrypt);
      (Referer(url).None? <==> reqs == []) &&
      |reqs| <= MaxRetries &&
      (forall j :: 0 <= j < |reqs| ==> reqs[j] == SegmentRequest(url, j, Referer(url))) &&
      (forall j :: 0 <= j < |reqs| - 1 ==> net.segment(url)(j).None?)
  {
  }

  /** A segment fails at the network only after all three GETs failed. */
  lemma {:induction false} SegmentFetchFailsAfterThreeAttempts(url: string, key: Bytes, iv: string, index: nat, net: Network, decrypt: Decryptor)
    ensures var (r, reqs) := SegmentOutcome(url, key, iv, index, net, decrypt);
      r == Failure(SegmentFetchFailed) <==>
        Referer(url).Some? && forall j :: 0 <= j < MaxRetries ==> net.segment(url)(j).None?
  {
    var get := net.segment(url);
    if Referer(url).Some? && forall j :: 0 <= j < MaxRetries ==> get(j).None? {
      assert get(AttemptsUsed(get) - 1).None?;
    }
  }

  /** A failed first attempt that is followed by a good one costs two GETs and loses nothing. */
  lemma {:induction false} RetryRecovers(url: string, key: Bytes, iv: string, index: nat, net: Network, decrypt: Decryptor, body: Bytes)
    requires Referer(url).Some?
    requires net.segment(url)(0).None? && net.segment(url)(1) == Some(body)
    ensures var (r, reqs) := SegmentOutcome(url, key, iv, index, net, decrypt);
      |reqs| == 2 && r == Plaintext(body, key, iv, index, decrypt)
  {
    var get := net.segment(url);
    assert AttemptsFrom(get, 1) == 2;
  }

  /** With an empty key the body is handed back undecrypted. */
  lemma {:induction false} EmptyKeyPassesBodyThrough(url: string, iv: string, index: nat, net: Network, decrypt: Decryptor)
    requires Referer(url).Some?
    requires net.segment(url)(0).Some?
    ensures SegmentOutcome(url, [], iv, index, net, decrypt) == (Success(net.segment(url)(0).value), [SegmentRequest(url, 0, Referer(url))])
  {
    assert AttemptsUsed(net.segment(url)) == 1;
    assert Attempts(url, Referer(url).value, 1) == [SegmentRequest(url, 0, Referer(url))];
  }

  /**
   * download_and_decrypt_segment: the Referer is computed first (its
   * IndexError comes before any request), then the body is fetched with
   * retries and decrypted.
   */
  method DownloadAndDecryptSegment(url: string, key: Bytes, iv: string, index: nat, net: Network, decrypt: Decryptor)
    returns (r: Result<Bytes, Error>, requests: seq<Request>)
    ensures (r, requests) == SegmentOutcome(url, key, iv, index, net, decrypt)
  {
    var referer := Referer(url);
    if referer.None? {
      return Failure(RefererUnavailable), [];
    }
    var body;
    body, requests := FetchWithRetry(url, referer.value, net);
    if body.None? {
      return Failure(SegmentFetchFailed), requests;
    }
    r := Plaintext(body.value, key, iv, index, decrypt);
  }
}

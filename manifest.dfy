/**
 * Playlist parsing of XiaoETongParser: parse_m3u8, _parse_encryption and
 * _parse_ts_segments, over the playlist text an abstract GET returned.
 */
module Manifest {
  import opened Wrappers
  import opened Text
  import opened HlsTypes

  /** urllib.parse.urljoin(base, url): reference resolution, kept abstract. */
  type Joiner = (string, string) -> string

  datatype EncryptionInfo = EncryptionInfo(keyMethod: string, keyUri: string, iv: string)

  datatype Playlist = Playlist(encryption: Option<EncryptionInfo>, segments: seq<string>, totalSegments: nat)

  /** The IV recorded when the key tag has no `IV=0x...` attribute: 32 '0' characters. */
  const DefaultIv: string := "00000000000000000000000000000000"

  // ----------------------------------------------------------------------
  // #EXT-X-KEY

  predicate KeyTagAt(s: string) {
    StartsWith(s, "#EXT-X-KEY:")
  }

  /**
   * The group of `#EXT-X-KEY:(.*)`: the rest of the line after the first key
   * tag, up to the next newline or the end of the text (`.` stops only at a
   * newline).
   */
  function KeyAttributes(content: string): (r: Option<string>)
    ensures r.None? <==> Find(content, KeyTagAt).None?
    ensures r.Some? ==> '\n' !in r.value
    ensures r.Some? ==> var i := Find(content, KeyTagAt).value;
                        StartsWith(content[i..], "#EXT-X-KEY:" + r.value) && RunEndsAt(content, i + 11 + |r.value|, NotChar('\n'))
  {
    match Find(content, KeyTagAt)
    case None => None
    case Some(k) =>
      KeyLineAt(content, k);
      Some(KeyLine(content[k..]))
  }

  /** The rest of the line after a key tag at the start of `t`. */
  function KeyLine(t: string): string
    requires KeyTagAt(t)
  {
    t[11..11 + SpanAt(t, 11, NotChar('\n'))]
  }

  /** A key tag at position `k` is followed by its line, up to a newline or the end. */
  lemma {:induction false} KeyLineAt(content: string, k: nat)
    requires k <= |content| && KeyTagAt(content[k..])
    ensures var line := KeyLine(content[k..]);
            '\n' !in line && StartsWith(content[k..], "#EXT-X-KEY:" + line)
            && RunEndsAt(content, k + 11 + |line|, NotChar('\n'))
  {
    var t := content[k..];
    var line := KeyLine(t);
    SpanAtChars(t, 11, NotChar('\n'));
    assert forall j :: 0 <= j < |line| ==> line[j] == t[11 + j];
    SliceSplit(t, 0, 11, 11 + |line|);
    assert t[..11 + |line|] == "#EXT-X-KEY:" + line;
    RunEndsAtShift(content, k, 11 + |line|, NotChar('\n'));
  }

  /** Where `URI="([^"]*)"` matches at the start of `s`: a closing quote follows the opening one. */
  predicate UriAttrAt(s: string) {
    StartsWith(s, "URI=\"") && 5 + SpanAt(s, 5, NotChar('"')) < |s|
  }

  /** The group of the leftmost match of `URI="([^"]*)"` in the key tag's attributes. */
  function UriAttr(attrs: string): (r: Option<string>)
    ensures r.None? <==> Find(attrs, UriAttrAt).None?
    ensures r.Some? ==> '"' !in r.value
    ensures r.Some? ==> StartsWith(attrs[Find(attrs, UriAttrAt).value..], "URI=\"" + r.value + "\"")
  {
    match Find(attrs, UriAttrAt)
    case None => None
    case Some(k) =>
      UriValueQuoted(attrs[k..]);
      Some(UriValue(attrs[k..]))
  }

  /** The text between the quotes of a URI attribute at the start of `t`. */
  function UriValue(t: string): string
    requires UriAttrAt(t)
  {
    t[5..5 + SpanAt(t, 5, NotChar('"'))]
  }

  /** A URI attribute spells `URI="`, its value without a quote, and the closing quote. */
  lemma {:induction false} UriValueQuoted(t: string)
    requires UriAttrAt(t)
    ensures '"' !in UriValue(t) && StartsWith(t, "URI=\"" + UriValue(t) + "\"")
  {
    var v := UriValue(t);
    SpanAtChars(t, 5, NotChar('"'));
    assert forall j :: 0 <= j < |v| ==> v[j] == t[5 + j];
    SliceSplit(t, 0, 5, 5 + |v|);
    SliceSplit(t, 0, 5 + |v|, 6 + |v|);
    assert t[5 + |v|..6 + |v|] == "\"";
    assert t[..6 + |v|] == "URI=\"" + v + "\"";
  }

  /**
   * The group of the leftmost match of `IV=0x([0-9A-Fa-f]+)` in the key tag's
   * attributes: every hexadecimal digit that follows the first `IV=0x` that
   * has at least one.
   */
  function IvAttr(attrs: string): (r: Option<string>)
    ensures r.Some? ==> IsHexRun(r.value)
    ensures r.Some? <==> FirstLiteralRun(attrs, "IV=0x", HexDigit).Some?
    ensures r.Some? ==> var i := FirstLiteralRun(attrs, "IV=0x", HexDigit).value;
                        StartsWith(attrs[i..], "IV=0x" + r.value) && RunEndsAt(attrs, i + 5 + |r.value|, HexDigit)
  {
    LiteralThenRun(attrs, "IV=0x", HexDigit)
  }

  /** A key tag contains "EXT-X-KEY", so the first test of _parse_encryption never decides alone. */
  lemma {:induction false} KeyTagContainsMarker(content: string)
    ensures KeyAttributes(content).Some? ==> Contains(content, "EXT-X-KEY")
  {
    match Find(content, KeyTagAt)
    case None =>
    case Some(i) =>
      StartsWithNext(content, i, "#EXT-X-KEY:");
      assert "#EXT-X-KEY:"[1..] == "EXT-X-KEY" + ":";
      StartsWithPrefix(content[i + 1..], "EXT-X-KEY", ":");
  }

  /**
   * _parse_encryption: None without a key tag or without a URI in the first
   * one; otherwise the method is always AES-128, a URI not starting with
   * "http" is joined to the playlist URL, and the IV is the hex text after
   * `IV=0x` or 32 '0' characters.
   */
  function ParseEncryption(content: string, baseUrl: string, join: Joiner): (r: Option<EncryptionInfo>)
    ensures !Contains(content, "EXT-X-KEY") ==> r.None?
    ensures r.None? <==> KeyAttributes(content).None? || UriAttr(KeyAttributes(content).value).None?
    ensures r.Some? ==> r.value.keyMethod == "AES-128"
    ensures r.Some? ==>
      var uri := UriAttr(KeyAttributes(content).value).value;
      (StartsWith(uri, "http") ==> r.value.keyUri == uri) &&
      (!StartsWith(uri, "http") ==> r.value.keyUri == join(baseUrl, uri))
    ensures r.Some? ==>
      var attrs := KeyAttributes(content).value;
      (IvAttr(attrs).Some? ==> r.value.iv == IvAttr(attrs).value) &&
      (IvAttr(attrs).None? ==> r.value.iv == DefaultIv)
  {
    KeyTagContainsMarker(content);
    if !Contains(content, "EXT-X-KEY") then None
    else
      match KeyAttributes(content)
      case None => None
      case Some(attrs) =>
        match UriAttr(attrs)
        case None => None
        case Some(uri) =>
          var keyUri := if StartsWith(uri, "http") then uri else join(baseUrl, uri);
          var iv := IvAttr(attrs).GetOr(DefaultIv);
          Some(EncryptionInfo("AES-128", keyUri, iv))
  }

  /** Text the group `([0-9A-Fa-f]+)` can capture. */
  predicate IsHexRun(x: string) {
    |x| > 0 && forall i :: 0 <= i < |x| ==> IsHexDigit(x[i])
  }

  lemma {:induction false} DefaultIvIsHex()
    ensures IsHexRun(DefaultIv)
  {
    assert DefaultIv == seq(32, _ => '0');
  }

  /** The recorded IV is never empty and is made of hexadecimal digits only. */
  lemma {:induction false} EncryptionIvIsHex(content: string, baseUrl: string, join: Joiner)
    requires ParseEncryption(content, baseUrl, join).Some?
    ensures IsHexRun(ParseEncryption(content, baseUrl, join).value.iv)
  {
    var attrs := KeyAttributes(content).value;
    if IvAttr(attrs).None? {
      DefaultIvIsHex();
    }
  }

  // ----------------------------------------------------------------------
  // #EXTINF

  /** Characters of `[^\s#]`. */
  predicate IsUriChar(c: char) {
    InClass(c, UriChars)
  }

  const UriChars := NotSpaceNor('#')

  /**
   * Where `#EXTINF:[^,]*,\s*([^\s#]+)` matching at the start of `s` puts its
   * group, as (start, end). `[^,]*` stops at the first comma (it crosses line
   * ends), `\s*` at the first non-space; the group is then the maximal run of
   * characters that are neither white space nor '#', and there is no match
   * when that run is empty.
   */
  function ExtinfGroup(s: string): (g: Option<(nat, nat)>)
    ensures g.Some? ==> 8 < g.value.0 < g.value.1 <= |s|
  {
    if !StartsWith(s, "#EXTINF:") then None
    else
      var comma := 8 + SpanAt(s, 8, NotChar(','));
      if comma == |s| then None
      else
        var start := comma + 1 + SpanAt(s, comma + 1, Space);
        var len := SpanAt(s, start, UriChars);
        if len == 0 then None else Some((start, start + len))
  }

  /**
   * What a match says about the text: the tag, a duration free of commas,
   * the comma, white space only up to the group, the group as a run of `[^\s#]`
   * characters, and no such character right after it.
   */
  lemma {:induction false} ExtinfGroupShape(s: string)
    requires ExtinfGroup(s).Some?
    ensures var (start, end) := ExtinfGroup(s).value;
      var comma := 8 + SpanAt(s, 8, NotChar(','));
      && StartsWith(s, "#EXTINF:") && comma < start
      && (forall j :: 8 <= j < comma ==> s[j] != ',')
      && s[comma] == ','
      && (forall j :: comma < j < start ==> IsSpace(s[j]))
      && (forall j :: start <= j < end ==> IsUriChar(s[j]))
      && (end < |s| ==> !IsUriChar(s[end]))
  {
    var comma := 8 + SpanAt(s, 8, NotChar(','));
    var start := comma + 1 + SpanAt(s, comma + 1, Space);
    SpanAtChars(s, 8, NotChar(','));
    SpanAtChars(s, comma + 1, Space);
    SpanAtChars(s, start, UriChars);
  }

  /** Text the group `([^\s#]+)` can capture. */
  predicate IsUriRun(x: string) {
    |x| > 0 && forall i :: 0 <= i < |x| ==> IsUriChar(x[i])
  }

  /**
   * The leftmost EXTINF match in `s`, as its group and the position where it
   * ends, which is where the next search of re.findall resumes: the pattern is
   * tried at 0, 1, ... and the first position where it matches wins.
   */
  function NextExtinf(s: string): (m: Option<(string, nat)>)
    ensures m.Some? ==> 10 <= m.value.1 <= |s|
    decreases |s|
  {
    match ExtinfGroup(s)
    case Some(g) => Some((s[g.0..g.1], g.1))
    case None =>
      if s == [] then None
      else
        match NextExtinf(s[1..])
        case None => None
        case Some((cap, end)) => Some((cap, end + 1))
  }

  /** Whatever the search finds is a run of `[^\s#]` characters. */
  lemma {:induction false} NextExtinfIsUriRun(s: string)
    ensures NextExtinf(s).Some? ==> IsUriRun(NextExtinf(s).value.0)
    decreases |s|
  {
    match ExtinfGroup(s)
    case Some(g) =>
      ExtinfGroupShape(s);
      var cap := s[g.0..g.1];
      assert forall i :: 0 <= i < |cap| ==> cap[i] == s[g.0 + i];
    case None =>
      if s != [] {
        NextExtinfIsUriRun(s[1..]);
      }
  }

  /** re.findall of the EXTINF pattern: the groups of its successive non-overlapping matches. */
  function ExtinfCaptures(content: string): (caps: seq<string>)
    decreases |content|
  {
    match NextExtinf(content)
    case None => []
    case Some((cap, end)) => [cap] + ExtinfCaptures(content[end..])
  }

  /** Every captured segment reference is non-empty and holds no white space and no '#'. */
  lemma {:induction false} CapturesAreUriRuns(content: string)
    ensures forall k :: 0 <= k < |ExtinfCaptures(content)| ==> IsUriRun(ExtinfCaptures(content)[k])
    decreases |content|
  {
    NextExtinfIsUriRun(content);
    match NextExtinf(content)
    case None =>
    case Some((_, end)) => CapturesAreUriRuns(content[end..]);
  }

  /**
   * A match spans at least ten characters (the tag, the comma and one group
   * character) and the next search starts after it: at most one capture per
   * ten characters of text.
   */
  lemma {:induction false} CapturesBound(content: string)
    ensures 10 * |ExtinfCaptures(content)| <= |content|
    decreases |content|
  {
    match NextExtinf(content)
    case None =>
    case Some((_, end)) => CapturesBound(content[end..]);
  }

  /** The search for the next match moves past a position where no match starts. */
  lemma {:induction false} CapturesSkip(s: string)
    requires s != [] && ExtinfGroup(s).None?
    ensures ExtinfCaptures(s) == ExtinfCaptures(s[1..])
  {
    match NextExtinf(s[1..])
    case None =>
    case Some((cap, end)) =>
      assert s[end + 1..] == s[1..][end..];
  }

  /** Text without '#' before the next match contributes no capture. */
  lemma {:induction false} CapturesSkipNoHash(x: string, r: string)
    requires '#' !in x
    ensures ExtinfCaptures(x + r) == ExtinfCaptures(r)
    decreases |x|
  {
    if x == [] {
      assert x + r == r;
    } else {
      var s := x + r;
      assert s[0] == x[0];
      assert ExtinfGroup(s).None? by {
        if |s| >= 8 { assert s[..8][0] == s[0]; }
      }
      CapturesSkip(s);
      assert s[1..] == x[1..] + r;
      CapturesSkipNoHash(x[1..], r);
    }
  }

  /** The parts of a matching EXTINF entry, split where the pattern's pieces meet. */
  predicate EntryParts(s: string, duration: string, ws: string, token: string, r: string) {
    && (forall i :: 0 <= i < |duration| ==> duration[i] != ',')
    && (forall i :: 0 <= i < |ws| ==> IsSpace(ws[i]))
    && IsUriRun(token)
    && (r == [] || !IsUriChar(r[0]))
    && s == "#EXTINF:" + duration + "," + (ws + (token + r))
  }

  /** `[^,]*` after the tag stops at the comma that ends the duration. */
  lemma {:induction false} TagDurationSpan(s: string, duration: string, rest: string)
    requires forall i :: 0 <= i < |duration| ==> duration[i] != ','
    requires s == "#EXTINF:" + duration + "," + rest
    ensures StartsWith(s, "#EXTINF:") && 8 + |duration| < |s|
    ensures SpanAt(s, 8, NotChar(',')) == |duration|
    ensures s[9 + |duration|..] == rest
  {
    assert s[..8] == "#EXTINF:";
    assert s[8..] == duration + ("," + rest);
    RunOf(s, 8, duration, "," + rest, NotChar(','));
    assert s[9 + |duration|..] == s[8 + |duration|..][1..];
  }

  /** After the comma, `\s*` runs over the white space and the group over the reference. */
  lemma {:induction false} AfterComma(s: string, at: nat, ws: string, token: string, r: string)
    requires at <= |s| && s[at..] == ws + (token + r)
    requires forall i :: 0 <= i < |ws| ==> IsSpace(ws[i])
    requires IsUriRun(token)
    requires r == [] || !IsUriChar(r[0])
    ensures at + |ws| + |token| <= |s|
    ensures SpanAt(s, at, Space) == |ws|
    ensures SpanAt(s, at + |ws|, UriChars) == |token|
  {
    assert token[0] == (token + r)[0];
    RunOf(s, at, ws, token + r, Space);
    RunOf(s, at + |ws|, token, r, UriChars);
  }

  /** Where the runs of the pattern end in a matching entry. */
  lemma {:induction false} EntrySpans(s: string, duration: string, ws: string, token: string, r: string)
    requires EntryParts(s, duration, ws, token, r)
    ensures var d, w, t := |duration|, |ws|, |token|;
      && StartsWith(s, "#EXTINF:") && 9 + d + w + t <= |s|
      && SpanAt(s, 8, NotChar(',')) == d
      && SpanAt(s, 9 + d, Space) == w
      && SpanAt(s, 9 + d + w, UriChars) == t
  {
    TagDurationSpan(s, duration, ws + (token + r));
    AfterComma(s, 9 + |duration|, ws, token, r);
  }

  /** In a matching entry the group spans the reference. */
  lemma {:induction false} EntryGroup(s: string, duration: string, ws: string, token: string, r: string)
    requires EntryParts(s, duration, ws, token, r)
    ensures var k := 9 + |duration| + |ws|;
      && k + |token| <= |s|
      && ExtinfGroup(s) == Some((k, k + |token|))
  {
    EntrySpans(s, duration, ws, token, r);
  }

  /** The reference and the text after it, as slices of a matching entry. */
  lemma {:induction false} EntryPieces(s: string, duration: string, ws: string, token: string, r: string)
    requires EntryParts(s, duration, ws, token, r)
    ensures var k := 9 + |duration| + |ws|;
      k + |token| <= |s| && s[k..k + |token|] == token && s[k + |token|..] == r
  {
    var k := 9 + |duration| + |ws|;
    assert s == ("#EXTINF:" + duration + "," + ws) + (token + r);
    assert s[k..] == token + r;
    assert s[k..k + |token|] == s[k..][..|token|];
  }

  /** A match at the front of the text yields the first capture, and the search resumes after it. */
  lemma {:induction false} CapturesOfGroup(s: string, start: nat, end: nat)
    requires ExtinfGroup(s) == Some((start, end))
    ensures ExtinfCaptures(s) == [s[start..end]] + ExtinfCaptures(s[end..])
  {
  }

  /** A matching entry contributes its reference, and the search resumes right after it. */
  lemma {:induction false} CapturesOfMatchedEntry(s: string, duration: string, ws: string, token: string, r: string)
    requires EntryParts(s, duration, ws, token, r)
    ensures ExtinfCaptures(s) == [token] + ExtinfCaptures(r)
  {
    var k := 9 + |duration| + |ws|;
    EntryGroup(s, duration, ws, token, r);
    EntryPieces(s, duration, ws, token, r);
    CapturesOfGroup(s, k, k + |token|);
  }

  /** An EXTINF tag whose comma is followed, past white space, by a '#' line or the end matches nothing. */
  lemma {:induction false} ExtinfBeforeCommentLine(s: string, duration: string, ws: string, r: string)
    requires forall i :: 0 <= i < |duration| ==> duration[i] != ','
    requires forall i :: 0 <= i < |ws| ==> IsSpace(ws[i])
    requires r == [] || r[0] == '#'
    requires s == "#EXTINF:" + duration + "," + (ws + r)
    ensures ExtinfGroup(s).None?
  {
    var at := 9 + |duration|;
    TagDurationSpan(s, duration, ws + r);
    RunOf(s, at, ws, r, Space);
    if r != [] {
      assert s[at + |ws|] == r[0];
    }
    SpanAtRun(s, at + |ws|, 0, UriChars);
  }

  /** A title after the comma is taken in place of the URI on the next line. */
  lemma {:induction false} TitleCapturedInPlaceOfUri(s: string, duration: string, title: string, uri: string)
    requires forall i :: 0 <= i < |duration| ==> duration[i] != ','
    requires IsUriRun(title)
    requires s == "#EXTINF:" + duration + "," + title + "\n" + uri
    ensures ExtinfCaptures(s) == [title] + ExtinfCaptures("\n" + uri)
  {
    assert s == "#EXTINF:" + duration + "," + ("" + (title + ("\n" + uri)));
    CapturesOfMatchedEntry(s, duration, "", title, "\n" + uri);
  }

  // ----------------------------------------------------------------------
  // A playlist as a server writes it, and what the parser makes of it

  /** One entry of a media playlist: `#EXTINF:<duration>,` and the URI line after it. */
  datatype Entry = Entry(duration: string, uri: string)

  predicate WellFormed(e: Entry) {
    (forall i :: 0 <= i < |e.duration| ==> e.duration[i] != ',') && IsUriRun(e.uri)
  }

  function EntryText(e: Entry): string {
    "#EXTINF:" + e.duration + ",\n" + e.uri
  }

  function RenderEntries(es: seq<Entry>): string {
    if es == [] then "" else "\n" + EntryText(es[0]) + RenderEntries(es[1..])
  }

  /** The `#EXTM3U` header line, then one entry per segment. */
  function RenderPlaylist(es: seq<Entry>): string {
    "#EXTM3U" + RenderEntries(es)
  }

  function Uris(es: seq<Entry>): seq<string> {
    if es == [] then [] else [es[0].uri] + Uris(es[1..])
  }

  lemma {:induction false} CapturesOfEntryText(e: Entry, rest: string)
    requires WellFormed(e)
    requires rest == [] || rest[0] == '\n'
    ensures ExtinfCaptures(EntryText(e) + rest) == [e.uri] + ExtinfCaptures(rest)
  {
    var s := EntryText(e) + rest;
    assert s == "#EXTINF:" + e.duration + "," + ("\n" + (e.uri + rest));
    CapturesOfMatchedEntry(s, e.duration, "\n", e.uri, rest);
  }

  /** One rendered entry contributes its URI, and the search resumes at the text after it. */
  lemma {:induction false} CapturesOfEntry(e: Entry, rest: string)
    requires WellFormed(e)
    requires rest == [] || rest[0] == '\n'
    ensures ExtinfCaptures("\n" + (EntryText(e) + rest)) == [e.uri] + ExtinfCaptures(rest)
  {
    CapturesSkipNoHash("\n", EntryText(e) + rest);
    CapturesOfEntryText(e, rest);
  }

  lemma {:induction false} CapturesOfEntries(es: seq<Entry>)
    requires forall i :: 0 <= i < |es| ==> WellFormed(es[i])
    ensures ExtinfCaptures(RenderEntries(es)) == Uris(es)
  {
    if es != [] {
      var rest := RenderEntries(es[1..]);
      CapturesOfEntries(es[1..]);
      assert RenderEntries(es) == "\n" + (EntryText(es[0]) + rest);
      CapturesOfEntry(es[0], rest);
    }
  }

  /** The "#EXTM3U" header contributes no capture: the playlist's captures are its entries' URIs. */
  lemma {:induction false} HeaderNotExtinf(s: string, body: string)
    requires s == "#EXTM3U" + body
    ensures s != [] && ExtinfGroup(s).None?
    ensures s[1..] == "EXTM3U" + body
  {
    if |s| >= 8 { assert s[..8][4] == 'M'; }
  }

  lemma {:induction false} CapturesAfterHeader(body: string)
    ensures ExtinfCaptures("#EXTM3U" + body) == ExtinfCaptures(body)
  {
    var s := "#EXTM3U" + body;
    HeaderNotExtinf(s, body);
    CapturesSkip(s);
    CapturesSkipNoHash("EXTM3U", body);
  }

  lemma {:induction false} CapturesOfPlaylist(es: seq<Entry>)
    requires forall i :: 0 <= i < |es| ==> WellFormed(es[i])
    ensures ExtinfCaptures(RenderPlaylist(es)) == Uris(es)
  {
    CapturesAfterHeader(RenderEntries(es));
    CapturesOfEntries(es);
  }

  lemma {:induction false} UrisAt(es: seq<Entry>)
    ensures |Uris(es)| == |es|
    ensures forall k :: 0 <= k < |es| ==> Uris(es)[k] == es[k].uri
  {
    if es != [] {
      UrisAt(es[1..]);
    }
  }

  /**
   * A playlist of N well-formed entries passes the "#EXTM3U" test and yields
   * N segment URLs, the k-th resolved from the k-th entry's URI.
   */
  lemma {:induction false} RenderedPlaylistSegments(es: seq<Entry>, baseUrl: string, join: Joiner)
    requires forall i :: 0 <= i < |es| ==> WellFormed(es[i])
    ensures Contains(RenderPlaylist(es), "#EXTM3U")
    ensures |SegmentUrls(RenderPlaylist(es), baseUrl, join)| == |es|
    ensures forall k :: 0 <= k < |es| ==>
      SegmentUrls(RenderPlaylist(es), baseUrl, join)[k] ==
        if StartsWith(es[k].uri, "http") then es[k].uri else join(Directory(baseUrl), es[k].uri)
  {
    assert StartsWith(RenderPlaylist(es)[0..], "#EXTM3U");
    CapturesOfPlaylist(es);
    UrisAt(es);
  }

  /** `base_url.rsplit('/', 1)[0] + '/'`: the playlist URL up to and including its last '/'. */
  function Directory(url: string): (dir: string)
    ensures |dir| > 0
    ensures '/' in url ==> |dir| <= |url| && dir == url[..|dir|] && dir[|dir| - 1] == '/' && '/' !in url[|dir|..]
    ensures '/' !in url ==> dir == url + "/"
  {
    match LastIndexOf(url, '/')
    case Some(i) =>
      assert url[..i] + "/" == url[..i + 1];
      url[..i] + "/"
    case None => url + "/"
  }

  /** The segment URLs _parse_ts_segments returns, one per EXTINF match. */
  function SegmentUrls(content: string, baseUrl: string, join: Joiner): (urls: seq<string>)
    ensures |urls| == |ExtinfCaptures(content)|
    ensures forall k :: 0 <= k < |urls| ==>
      var m := ExtinfCaptures(content)[k];
      (StartsWith(m, "http") ==> urls[k] == m) && (!StartsWith(m, "http") ==> urls[k] == join(Directory(baseUrl), m))
  {
    var caps := ExtinfCaptures(content);
    var dir := Directory(baseUrl);
    seq(|caps|, k requires 0 <= k < |caps| => if StartsWith(caps[k], "http") then caps[k] else join(dir, caps[k]))
  }

  /**
   * _parse_ts_segments: one URL per EXTINF match, in the order of the text; a
   * group starting with "http" is kept as it is, any other is joined to the
   * playlist's directory.
   */
  method ParseTsSegments(content: string, baseUrl: string, join: Joiner) returns (segments: seq<string>)
    ensures |segments| == |ExtinfCaptures(content)|
    ensures forall k :: 0 <= k < |segments| ==>
      var m := ExtinfCaptures(content)[k];
      (StartsWith(m, "http") ==> segments[k] == m) &&
      (!StartsWith(m, "http") ==> segments[k] == join(Directory(baseUrl), m))
  {
    var dir := Directory(baseUrl);
    var matches := ExtinfCaptures(content);
    segments := [];
    for i := 0 to |matches|
      invariant |segments| == i
      invariant forall k :: 0 <= k < i ==>
        (StartsWith(matches[k], "http") ==> segments[k] == matches[k]) &&
        (!StartsWith(matches[k], "http") ==> segments[k] == join(dir, matches[k]))
    {
      if StartsWith(matches[i], "http") {
        segments := segments + [matches[i]];
      } else {
        segments := segments + [join(dir, matches[i])];
      }
    }
  }

  /**
   * parse_m3u8: the GET's failure becomes ManifestFetchFailed; text without
   * "#EXTM3U" anywhere is NotM3u8; otherwise the key information and the
   * segment URLs, with their count.
   */
  method ParseM3u8(url: string, net: Network, join: Joiner) returns (r: Result<Playlist, Error>)
    ensures net.manifest(url).None? ==> r == Failure(ManifestFetchFailed)
    ensures net.manifest(url).Some? && !Contains(net.manifest(url).value, "#EXTM3U") ==> r == Failure(NotM3u8)
    ensures net.manifest(url).Some? && Contains(net.manifest(url).value, "#EXTM3U") ==>
      var text := net.manifest(url).value;
      r.Success? &&
      r.value.encryption == ParseEncryption(text, url, join) &&
      r.value.segments == SegmentUrls(text, url, join) &&
      r.value.totalSegments == |r.value.segments|
  {
    var fetched := net.manifest(url);
    if fetched.None? {
      return Failure(ManifestFetchFailed);
    }
    var content := fetched.value;
    if !Contains(content, "#EXTM3U") {
      return Failure(NotM3u8);
    }
    var encryption := ParseEncryption(content, url, join);
    var segments := ParseTsSegments(content, url, join);
    assert segments == SegmentUrls(content, url, join);
    r := Success(Playlist(encryption, segments, |segments|));
  }
}

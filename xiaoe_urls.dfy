/**
 * The patterns that pick identifiers out of Xiaoe-tech page addresses:
 * the shop id in a host name, the course product in a path or a `from`
 * query parameter, and the lesson resource in a detail or live page path.
 * Each function returns the group of the leftmost match, as re.search
 * followed by group(1) does.
 */
module XiaoeUrls {
  import opened Wrappers
  import opened Text

  /** Where `app([a-zA-Z0-9]+)\.` matches at the start of `t`. */
  predicate AppIdAt(t: string) {
    StartsWith(t, "app") && SpanAt(t, 3, AsciiAlnum) > 0
    && 3 + SpanAt(t, 3, AsciiAlnum) < |t| && t[3 + SpanAt(t, 3, AsciiAlnum)] == '.'
  }

  /**
   * The group of `app([a-zA-Z0-9]+)\.` in a host name. The dot cannot be
   * an alphanumeric character, so a match at a position exists exactly when
   * the greedy run there is followed by a dot; backtracking to a shorter run
   * would put an alphanumeric character where the dot must be.
   */
  function AppIdMatch(netloc: string): (r: Option<string>)
    ensures r.Some? ==> |r.value| > 0 && forall i :: 0 <= i < |r.value| ==> IsAsciiAlnum(r.value[i])
    ensures r.Some? <==> Find(netloc, AppIdAt).Some?
    ensures r.Some? ==> StartsWith(netloc[Find(netloc, AppIdAt).value..], "app" + r.value + ".")
  {
    match Find(netloc, AppIdAt)
    case None => None
    case Some(k) =>
      var t := netloc[k..];
      var run := t[3..3 + SpanAt(t, 3, AsciiAlnum)];
      SpanAtChars(t, 3, AsciiAlnum);
      SliceSplit(t, 0, 3, 3 + |run|);
      SliceSplit(t, 0, 3 + |run|, 3 + |run| + 1);
      assert t[3 + |run|..3 + |run| + 1] == ".";
      assert t[..3 + |run| + 1] == "app" + run + ".";
      Some(run)
  }

  /**
   * Where `/p/course/[^/]+/(p_[a-zA-Z0-9]+)` matches at the start of `t`.
   * `[^/]+` cannot cross a slash, so it must stop at the first slash after
   * the literal, and that slash must be followed by `p_` and a run.
   */
  predicate CourseProductAt(t: string) {
    StartsWith(t, "/p/course/")
    && var x := SpanAt(t, 10, NotChar('/'));
       x > 0 && StartsWith(t[10 + x..], "/p_") && SpanAt(t, 13 + x, AsciiAlnum) > 0
  }

  /** The `p_...` group of a course path match at the start of `t`. */
  function CourseGroup(t: string): string
    requires CourseProductAt(t)
  {
    var at := 13 + SpanAt(t, 10, NotChar('/'));
    "p_" + t[at..at + SpanAt(t, at, AsciiAlnum)]
  }

  /** The group of a course path match is `p_` and a greedy alphanumeric run. */
  lemma {:induction false} CourseGroupRun(t: string)
    requires CourseProductAt(t)
    ensures var g := CourseGroup(t);
            StartsWith(g, "p_") && |g| > 2 && (forall i :: 2 <= i < |g| ==> IsAsciiAlnum(g[i]))
            && 11 + SpanAt(t, 10, NotChar('/')) + |g| <= |t|
            && RunEndsAt(t, 11 + SpanAt(t, 10, NotChar('/')) + |g|, AsciiAlnum)
  {
    var at := 13 + SpanAt(t, 10, NotChar('/'));
    SpanAtChars(t, at, AsciiAlnum);
    var run := t[at..at + SpanAt(t, at, AsciiAlnum)];
    assert forall j :: 0 <= j < |run| ==> run[j] == t[at + j];
  }

  /** A course path match spells out `/p/course/<kind>/` and then its group. */
  lemma {:induction false} CourseGroupSpelled(t: string)
    requires CourseProductAt(t)
    ensures var kind := t[10..10 + SpanAt(t, 10, NotChar('/'))];
            |kind| > 0 && '/' !in kind && StartsWith(t, "/p/course/" + kind + "/" + CourseGroup(t))
  {
    var x := SpanAt(t, 10, NotChar('/'));
    var kind := t[10..10 + x];
    var run := t[13 + x..13 + x + SpanAt(t, 13 + x, AsciiAlnum)];
    CourseKind(t);
    assert t[10 + x..13 + x] == "/p_" by {
      assert t[10 + x..13 + x] == t[10 + x..][..3];
    }
    SliceSplit(t, 0, 10, 10 + x);
    SliceSplit(t, 0, 10 + x, 13 + x);
    SliceSplit(t, 0, 13 + x, 13 + x + |run|);
    assert t[..13 + x + |run|] == "/p/course/" + kind + "/p_" + run;
    CourseSpelling(kind, run);
  }

  /** The `[^/]+` part of a course path match is non-empty and free of '/'. */
  lemma {:induction false} CourseKind(t: string)
    requires CourseProductAt(t)
    ensures var kind := t[10..10 + SpanAt(t, 10, NotChar('/'))];
            |kind| > 0 && '/' !in kind
  {
    var kind := t[10..10 + SpanAt(t, 10, NotChar('/'))];
    SpanAtChars(t, 10, NotChar('/'));
    assert forall j :: 0 <= j < |kind| ==> kind[j] == t[10 + j];
  }

  lemma {:induction false} CourseSpelling(kind: string, run: string)
    ensures "/p/course/" + kind + "/p_" + run == "/p/course/" + kind + "/" + ("p_" + run)
  {
    assert "/p_" + run == "/" + ("p_" + run);
  }

  /**
   * `t` starts with `/p/course/<kind>/<id>`, where `kind` is a non-empty
   * piece without '/', and no alphanumeric character follows `id`.
   */
  ghost predicate CoursePath(t: string, id: string) {
    exists kind :: |kind| > 0 && '/' !in kind
                   && StartsWith(t, "/p/course/" + kind + "/" + id)
                   && RunEndsAt(t, 11 + |kind| + |id|, AsciiAlnum)
  }

  /** A course path match at the start of `t` is a course path ending with its whole group. */
  lemma {:induction false} CourseGroupShape(t: string)
    requires CourseProductAt(t)
    ensures var g := CourseGroup(t);
            StartsWith(g, "p_") && |g| > 2 && (forall i :: 2 <= i < |g| ==> IsAsciiAlnum(g[i]))
            && CoursePath(t, g)
  {
    CourseGroupRun(t);
    CourseGroupSpelled(t);
    CoursePathOf(t, t[10..10 + SpanAt(t, 10, NotChar('/'))], CourseGroup(t));
  }

  lemma {:induction false} CoursePathOf(t: string, kind: string, id: string)
    requires |kind| > 0 && '/' !in kind && StartsWith(t, "/p/course/" + kind + "/" + id)
    requires RunEndsAt(t, 11 + |kind| + |id|, AsciiAlnum)
    ensures CoursePath(t, id)
  {
  }

  /**
   * The `p_` identifier of a course path `/p/course/<kind>/p_...`: taken
   * from the leftmost such path, with every alphanumeric character that
   * follows `p_` there.
   */
  function CourseProductId(url: string): (r: Option<string>)
    ensures r.Some? ==> StartsWith(r.value, "p_") && |r.value| > 2
    ensures r.Some? ==> forall i :: 2 <= i < |r.value| ==> IsAsciiAlnum(r.value[i])
    ensures r.Some? <==> Find(url, CourseProductAt).Some?
    ensures r.Some? ==> CoursePath(url[Find(url, CourseProductAt).value..], r.value)
  {
    match Find(url, CourseProductAt)
    case None => None
    case Some(k) =>
      CourseGroupShape(url[k..]);
      Some(CourseGroup(url[k..]))
  }

  /** The path before the lesson id of a detail page and of a live page. */
  const DetailPath := "/detail/"
  const LivePath := "/p/t_pc/live_pc/pc/"

  /**
   * The group of `<path>(l_[a-zA-Z0-9]+)`: the lesson id that follows the
   * leftmost `<path>l_` with at least one alphanumeric character after it,
   * taken with every alphanumeric character that follows there.
   */
  function LessonIdAfter(url: string, path: string): (r: Option<string>)
    ensures r.Some? ==> StartsWith(r.value, "l_") && |r.value| > 2
    ensures r.Some? ==> forall i :: 2 <= i < |r.value| ==> IsAsciiAlnum(r.value[i])
    ensures r.Some? <==> FirstLiteralRun(url, path + "l_", AsciiAlnum).Some?
    ensures r.Some? ==> var i := FirstLiteralRun(url, path + "l_", AsciiAlnum).value;
                        StartsWith(url[i..], path + r.value) && RunEndsAt(url, i + |path| + |r.value|, AsciiAlnum)
  {
    match LiteralThenAlnum(url, path + "l_")
    case None => None
    case Some(run) =>
      LessonIdOfRun(url, path, run);
      Some("l_" + run)
  }

  /** The alphanumeric run after `<path>l_` gives the whole lesson id `l_<run>` in place. */
  lemma {:induction false} LessonIdOfRun(url: string, path: string, run: string)
    requires LiteralThenAlnum(url, path + "l_") == Some(run)
    ensures var i := FirstLiteralRun(url, path + "l_", AsciiAlnum).value;
            StartsWith(url[i..], path + ("l_" + run)) && RunEndsAt(url, i + |path| + |"l_" + run|, AsciiAlnum)
  {
    ConcatAssoc(path, "l_", run);
  }

  /**
   * Conversely, the first place where `<path>l_` is followed by an
   * alphanumeric run gives `l_` and that whole run.
   */
  lemma {:induction false} LessonIdAfterIs(url: string, path: string, i: nat, code: string)
    requires i <= |url| && forall j :: 0 <= j < i ==> !LiteralThenRunAt(url[j..], path + "l_", AsciiAlnum)
    requires |code| > 0 && forall j :: 0 <= j < |code| ==> IsAsciiAlnum(code[j])
    requires StartsWith(url[i..], path + "l_" + code) && RunEndsAt(url, i + |path| + 2 + |code|, AsciiAlnum)
    ensures LessonIdAfter(url, path) == Some("l_" + code)
  {
    LiteralThenRunIs(url, path + "l_", AsciiAlnum, i, code);
  }

  /**
   * One `name=value` piece of a query string as parse_qs reads it: split at
   * the first `=`; a piece without `=` or with an empty value is dropped.
   */
  function QueryPair(piece: string): (r: Option<(string, string)>)
    ensures r.Some? ==> piece == r.value.0 + "=" + r.value.1 && '=' !in r.value.0 && |r.value.1| > 0
    ensures r.None? <==> '=' !in piece || (piece[|piece| - 1] == '=' && '=' !in piece[..|piece| - 1])
  {
    var n := SpanAt(piece, 0, NotChar('='));
    SpanAtChars(piece, 0, NotChar('='));
    if n == |piece| || n + 1 == |piece| then
      assert n + 1 == |piece| ==> piece[..|piece| - 1] == piece[..n];
      None
    else
      assert piece == piece[..n] + "=" + piece[n + 1..];
      assert piece[n] in piece[..|piece| - 1];
      Some((piece[..n], piece[n + 1..]))
  }

  /** Whether parse_qs keeps `piece` as a value for `name`. */
  predicate Names(piece: string, name: string) {
    QueryPair(piece).Some? && QueryPair(piece).value.0 == name
  }

  /** The index of the first piece from `i` on that parse_qs keeps as a value for `name`. */
  function FirstNamed(pieces: seq<string>, name: string, i: nat): (r: Option<nat>)
    requires i <= |pieces|
    ensures r.Some? ==> i <= r.value < |pieces| && Names(pieces[r.value], name)
    ensures r.Some? ==> forall j :: i <= j < r.value ==> !Names(pieces[j], name)
    ensures r.None? <==> forall j :: i <= j < |pieces| ==> !Names(pieces[j], name)
    decreases |pieces| - i
  {
    if i == |pieces| then None
    else if Names(pieces[i], name) then Some(i)
    else FirstNamed(pieces, name, i + 1)
  }

  /** The value of the first piece named `name`: query_params[name][0]. */
  function FirstValue(pieces: seq<string>, name: string): (r: Option<string>)
    ensures r.Some? ==> exists k :: 0 <= k < |pieces| && QueryPair(pieces[k]) == Some((name, r.value))
                          && forall j :: 0 <= j < k ==> !Names(pieces[j], name)
    ensures r.None? <==> forall k :: 0 <= k < |pieces| ==> !Names(pieces[k], name)
  {
    match FirstNamed(pieces, name, 0)
    case None => None
    case Some(k) => Some(QueryPair(pieces[k]).value.1)
  }

  /**
   * parse_qs(query)[name][0], with the pieces separated by `&`: the value of
   * the first piece kept for `name`.
   */
  function QueryValue(query: string, name: string): (r: Option<string>)
    ensures r.Some? ==> exists k :: 0 <= k < |Split(query, '&')| && QueryPair(Split(query, '&')[k]) == Some((name, r.value))
                                    && forall j :: 0 <= j < k ==> !Names(Split(query, '&')[j], name)
    ensures r.None? ==> forall k :: 0 <= k < |Split(query, '&')| ==> !Names(Split(query, '&')[k], name)
  {
    FirstValue(Split(query, '&'), name)
  }

  /** A `from` parameter naming a product (`from=p_...`), the only kind the code accepts. */
  function FromProductId(query: string): (r: Option<string>)
    ensures r.Some? ==> StartsWith(r.value, "p_") && QueryValue(query, "from") == r
    ensures r.None? <==> QueryValue(query, "from").None? || !StartsWith(QueryValue(query, "from").value, "p_")
  {
    match QueryValue(query, "from")
    case Some(v) => if StartsWith(v, "p_") then Some(v) else None
    case None => None
  }

  /**
   * The guess for a custom domain: the second-to-last dot-separated label
   * of the host, if it is longer than three characters.
   */
  function DomainAppId(netloc: string): (r: Option<string>)
    ensures r.Some? ==> |r.value| > 3 && '.' !in r.value
  {
    var labels := Split(netloc, '.');
    if |labels| >= 2 && |labels[|labels| - 2]| > 3 then Some(labels[|labels| - 2]) else None
  }

  /** For a host made of labels, the guess is exactly the next-to-last label, when it is long enough. */
  lemma {:induction false} DomainAppIdOfLabels(labels: seq<string>)
    requires |labels| >= 2
    requires forall k :: 0 <= k < |labels| ==> '.' !in labels[k]
    ensures DomainAppId(Join(labels, '.')) == if |labels[|labels| - 2]| > 3 then Some(labels[|labels| - 2]) else None
  {
    SplitJoin(labels, '.');
  }

  /** A host with no dot at all never yields a guess. */
  lemma {:induction false} NoDomainAppIdWithoutDot(netloc: string)
    requires '.' !in netloc
    ensures DomainAppId(netloc) == None
  {
    SplitNoSep(netloc, '.');
  }

  /** A host whose first label is `app` followed by the shop code yields that code. */
  lemma {:induction false} AppIdOfShopHost(code: string, domain: string)
    requires |code| > 0 && forall i :: 0 <= i < |code| ==> IsAsciiAlnum(code[i])
    ensures AppIdMatch("app" + code + "." + domain) == Some(code)
  {
    var host := "app" + code + "." + domain;
    assert host[3..] == code + ("." + domain);
    RunOf(host, 3, code, "." + domain, AsciiAlnum);
    assert host[..3] == "app";
    assert host[3 + |code|] == '.';
    assert host[0..] == host;
    assert AppIdAt(host[0..]);
    assert host[3..3 + |code|] == code;
  }

  /** The custom-domain example: `www.hctestedu.com` guesses `hctestedu`. */
  lemma {:induction false} CustomDomainExample()
    ensures DomainAppId("www.hctestedu.com") == Some("hctestedu")
  {
    var labels := ["www", "hctestedu", "com"];
    assert Join(labels, '.') == "www.hctestedu.com";
    DomainAppIdOfLabels(labels);
  }

  /** A `name=value` piece with a name free of `=` and a non-empty value reads back as that pair. */
  lemma {:induction false} QueryPairOf(name: string, value: string)
    requires '=' !in name && |value| > 0
    ensures QueryPair(name + "=" + value) == Some((name, value))
  {
    var piece := name + "=" + value;
    assert piece[0..] == name + ("=" + value);
    RunOf(piece, 0, name, "=" + value, NotChar('='));
    assert piece[..|name|] == name && piece[|name| + 1..] == value;
  }

  /** A parameter leading the query string is found with its value. */
  lemma {:induction false} QueryValueOfLeadingPair(query: string, name: string, value: string, rest: string)
    requires '=' !in name && '&' !in name && '&' !in value && |value| > 0
    requires query == name + "=" + value + "&" + rest
    ensures QueryValue(query, name) == Some(value)
  {
    var piece := name + "=" + value;
    assert query == piece + ['&'] + rest;
    assert forall i :: 0 <= i < |piece| ==> piece[i] != '&';
    SplitCons(piece, '&', rest);
    QueryPairOf(name, value);
  }
}

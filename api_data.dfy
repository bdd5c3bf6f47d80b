/**
 * Picking the stream address out of a decoded JSON object returned by the
 * course API: a fixed list of field names is tried in order at the top
 * level, then in a nested `media` object.
 */
module ApiData {
  import opened Wrappers

  /** A decoded JSON value (numbers restricted to integers). */
  datatype Value =
    | Null
    | Bool(b: bool)
    | Num(n: int)
    | Str(s: string)
    | Arr(items: seq<Value>)
    | Obj(fields: map<string, Value>)

  /** Python truthiness of a decoded JSON value. */
  predicate Truthy(v: Value) {
    match v
    case Null => false
    case Bool(b) => b
    case Num(n) => n != 0
    case Str(s) => |s| > 0
    case Arr(items) => |items| > 0
    case Obj(fields) => |fields| > 0
  }

  /** The field names tried, in order. */
  const VideoUrlFields: seq<string> :=
    ["video_url", "play_url", "playUrl", "hls_url", "m3u8_url", "stream_url", "media_url"]

  /** `field in m and m[field]`. */
  predicate TruthyField(m: map<string, Value>, field: string) {
    field in m && Truthy(m[field])
  }

  /** The index of the first name in `fields` from `i` on whose value in `m` is truthy. */
  function FirstTruthyFrom(fields: seq<string>, m: map<string, Value>, i: nat): (r: Option<nat>)
    requires i <= |fields|
    ensures r.Some? ==> i <= r.value < |fields| && TruthyField(m, fields[r.value])
    ensures r.Some? ==> forall j :: i <= j < r.value ==> !TruthyField(m, fields[j])
    ensures r.None? <==> forall j :: i <= j < |fields| ==> !TruthyField(m, fields[j])
    decreases |fields| - i
  {
    if i == |fields| then None
    else if TruthyField(m, fields[i]) then Some(i)
    else FirstTruthyFrom(fields, m, i + 1)
  }

  function FirstTruthy(fields: seq<string>, m: map<string, Value>): Option<nat> {
    FirstTruthyFrom(fields, m, 0)
  }

  /** The value of the first listed field of `m` that is truthy: no earlier listed field is. */
  function FieldValue(m: map<string, Value>): (r: Option<Value>)
    ensures r.Some? ==> exists i :: 0 <= i < |VideoUrlFields| && TruthyField(m, VideoUrlFields[i])
                          && r.value == m[VideoUrlFields[i]]
                          && forall j :: 0 <= j < i ==> !TruthyField(m, VideoUrlFields[j])
    ensures r.None? <==> forall i :: 0 <= i < |VideoUrlFields| ==> !TruthyField(m, VideoUrlFields[i])
  {
    match FirstTruthy(VideoUrlFields, m)
    case Some(i) => Some(m[VideoUrlFields[i]])
    case None => None
  }

  /**
   * The address the API data yields: the first truthy listed field at the
   * top level, else the first in a `media` object, else nothing.
   */
  function VideoUrlOf(data: map<string, Value>): (r: Option<Value>)
    ensures r.Some? ==> Truthy(r.value)
    ensures FieldValue(data).Some? ==> r == FieldValue(data)
    ensures (exists f :: f in VideoUrlFields && TruthyField(data, f)) ==>
              exists f :: f in VideoUrlFields && TruthyField(data, f) && r == Some(data[f])
    ensures (forall f :: f in VideoUrlFields ==> !TruthyField(data, f)) ==>
              r == if "media" in data && data["media"].Obj? then FieldValue(data["media"].fields) else None
    ensures r.None? <==>
              (forall f :: f in VideoUrlFields ==> !TruthyField(data, f))
              && !("media" in data && data["media"].Obj?
                   && exists f :: f in VideoUrlFields && TruthyField(data["media"].fields, f))
  {
    var top := FieldValue(data);
    if top.Some? then top
    else if "media" in data && data["media"].Obj? then FieldValue(data["media"].fields)
    else None
  }

  /** Conversely, the first truthy listed top-level field is the address, whatever follows it. */
  lemma {:induction false} FirstListedFieldWins(data: map<string, Value>, i: nat)
    requires i < |VideoUrlFields| && TruthyField(data, VideoUrlFields[i])
    requires forall j :: 0 <= j < i ==> !TruthyField(data, VideoUrlFields[j])
    ensures VideoUrlOf(data) == Some(data[VideoUrlFields[i]])
  {
    var k :| 0 <= k < |VideoUrlFields| && TruthyField(data, VideoUrlFields[k]) && FieldValue(data).value == data[VideoUrlFields[k]]
              && forall j :: 0 <= j < k ==> !TruthyField(data, VideoUrlFields[j]);
    assert k == i;
  }

  /** A truthy top-level field makes the nested `media` object irrelevant. */
  lemma {:induction false} TopLevelShadowsMedia(data: map<string, Value>, f: string)
    requires f in VideoUrlFields && TruthyField(data, f)
    ensures VideoUrlOf(data) == VideoUrlOf(data - {"media"})
  {
    var rest := data - {"media"};
    assert forall g :: g in VideoUrlFields ==> g != "media";
    assert forall j :: 0 <= j < |VideoUrlFields| ==> TruthyField(rest, VideoUrlFields[j]) == TruthyField(data, VideoUrlFields[j]);
    FirstTruthyAgree(VideoUrlFields, data, rest, 0);
    assert FieldValue(data) == FieldValue(rest);
  }

  /** Two objects that agree on which of the fields are truthy give the same first truthy field. */
  lemma {:induction false} FirstTruthyAgree(fields: seq<string>, m: map<string, Value>, n: map<string, Value>, i: nat)
    requires i <= |fields|
    requires forall j :: i <= j < |fields| ==> TruthyField(m, fields[j]) == TruthyField(n, fields[j])
    ensures FirstTruthyFrom(fields, m, i) == FirstTruthyFrom(fields, n, i)
    decreases |fields| - i
  {
    if i < |fields| {
      FirstTruthyAgree(fields, m, n, i + 1);
    }
  }

  /** The search for the first truthy listed field of `m`. */
  method FindTruthyField(m: map<string, Value>) returns (r: Option<Value>)
    ensures r == FieldValue(m)
  {
    for i := 0 to |VideoUrlFields|
      invariant forall j :: 0 <= j < i ==> !TruthyField(m, VideoUrlFields[j])
      invariant FirstTruthyFrom(VideoUrlFields, m, i) == FirstTruthy(VideoUrlFields, m)
    {
      var field := VideoUrlFields[i];
      if field in m && Truthy(m[field]) {
        return Some(m[field]);
      }
    }
    return None;
  }

  /** The stream address in API data: the top level first, then the nested `media` object. */
  method ExtractVideoUrlFromData(data: map<string, Value>) returns (r: Option<Value>)
    ensures r == VideoUrlOf(data)
  {
    r := FindTruthyField(data);
    if r.Some? {
      return;
    }
    if "media" in data && data["media"].Obj? {
      r := FindTruthyField(data["media"].fields);
    }
  }
}

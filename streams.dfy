/**
  Stream selection and orientation (combine.videos.python.py, `get_streams`
  and `get_rotated_width_height`). A stream descriptor is the dictionary the
  prober's JSON output decodes to.
 */
module Streams {
  import opened Wrappers
  import PyText

  /** A decoded JSON value. JSON floating-point numbers are not modelled. */
  datatype Json =
    | JNull
    | JBool(b: bool)
    | JInt(i: int)
    | JStr(s: string)
    | JArr(items: seq<Json>)
    | JObj(fields: map<string, Json>)

  /** One stream descriptor: a JSON object. The empty map is Python's `{}`. */
  type Stream = map<string, Json>

  /** `s.get('codec_type', False)`. */
  function CodecType(s: Stream): Json {
    if "codec_type" in s then s["codec_type"] else JBool(false)
  }

  /** `s.get('codec_type', False) == t`: only a JSON string equal to `t` matches. */
  predicate HasCodecType(s: Stream, t: string) {
    CodecType(s) == JStr(t)
  }

  /** The earliest stream of type `t` in `lst`, or `{}` when there is none. */
  function FirstOfType(lst: seq<Stream>, t: string): (r: Stream)
    ensures r == map[] <==> forall i | 0 <= i < |lst| :: !HasCodecType(lst[i], t)
    ensures r != map[] ==> r in lst && HasCodecType(r, t)
  {
    if lst == [] then map[]
    else if HasCodecType(lst[0], t) then lst[0]
    else FirstOfType(lst[1..], t)
  }

  /** The stream `FirstOfType` picks is the one at the smallest index with that type. */
  lemma {:induction false} FirstOfTypeIsEarliest(lst: seq<Stream>, t: string, k: nat)
    requires k < |lst| && HasCodecType(lst[k], t)
    requires forall j | 0 <= j < k :: !HasCodecType(lst[j], t)
    ensures FirstOfType(lst, t) == lst[k]
  {
    if k > 0 {
      FirstOfTypeIsEarliest(lst[1..], t, k - 1);
    }
  }

  /**
    `get_streams(lst)`: walks the list from the back and overwrites a slot at
    every match, so the stream left in each slot is the earliest of its type.
   */
  method GetStreams(lst: seq<Stream>) returns (video: Stream, audio: Stream)
    ensures video == FirstOfType(lst, "video")
    ensures audio == FirstOfType(lst, "audio")
  {
    video, audio := map[], map[];
    var i := |lst|;
    while i > 0
      invariant 0 <= i <= |lst|
      invariant video == FirstOfType(lst[i..], "video")
      invariant audio == FirstOfType(lst[i..], "audio")
    {
      i := i - 1;
      var s := lst[i];
      assert lst[i..][1..] == lst[i + 1..];
      if HasCodecType(s, "video") {
        video := s;
      }
      if HasCodecType(s, "audio") {
        audio := s;
      }
    }
    assert lst[0..] == lst;
  }

  /**
    Python's `int(v)` for a decoded JSON value; `None` where `int` raises:
    on `None`, a list, a dictionary, or a string `int` rejects.
   */
  function PyIntOf(v: Json): (r: Option<int>)
    ensures r.None? <==> v.JNull? || v.JArr? || v.JObj? || (v.JStr? && PyText.ParseInt(v.s).None?)
    ensures v.JInt? ==> r == Some(v.i)
    ensures v.JBool? ==> r == Some(if v.b then 1 else 0)
  {
    match v
    case JInt(i) => Some(i)
    case JBool(b) => Some(if b then 1 else 0)
    case JStr(s) => PyText.ParseInt(s)
    case _ => None
  }

  /** `vid_info["tags"]` is absent or a dictionary, so subscripting it cannot raise anything but `KeyError`. */
  predicate TagsSubscriptable(vid: Stream) {
    "tags" in vid ==> vid["tags"].JObj?
  }

  /** `vid_info["tags"]["rotate"]`, or `None` where either key is missing. */
  function RotateTag(vid: Stream): (r: Option<Json>)
    requires TagsSubscriptable(vid)
    ensures r.None? <==> "tags" !in vid || "rotate" !in vid["tags"].fields
    ensures r.Some? ==> r.value == vid["tags"].fields["rotate"]
  {
    if "tags" in vid && "rotate" in vid["tags"].fields then Some(vid["tags"].fields["rotate"]) else None
  }

  /**
    What `get_rotated_width_height` needs of its descriptor: the only
    exception it catches is `KeyError`, so a `tags` value that is not a
    dictionary or a `rotate` value that `int` refuses is excluded.
   */
  predicate RotationReadable(vid: Stream) {
    TagsSubscriptable(vid) && (RotateTag(vid).Some? ==> PyIntOf(RotateTag(vid).value).Some?)
  }

  /** Python's `a % m` for a positive modulus: the floor remainder, which Dafny's `%` equals when `m > 0`. */
  function PyMod(a: int, m: int): (r: int)
    requires m > 0
    ensures 0 <= r < m
  {
    a % m
  }

  /** The descriptor carries a rotation that is not a multiple of 180 degrees. */
  predicate QuarterTurned(vid: Stream)
    requires RotationReadable(vid)
  {
    RotateTag(vid).Some? && PyIntOf(RotateTag(vid).value).value % 180 != 0
  }

  /** `get_rotated_width_height(width, height, vid_info)`. */
  function GetRotatedWidthHeight(width: int, height: int, vid: Stream): (r: (int, int))
    requires RotationReadable(vid)
    ensures QuarterTurned(vid) ==> r == (height, width)
    ensures !QuarterTurned(vid) ==> r == (width, height)
    ensures multiset{r.0, r.1} == multiset{width, height}
  {
    match RotateTag(vid)
    case None => (width, height)
    case Some(tag) =>
      var angle := PyMod(PyIntOf(tag).value, 180);
      if angle > 0 then (height, width) else (width, height)
  }

  /** Without `tags`, or without `tags.rotate`, the pair is returned as given. */
  lemma UntaggedKeepsPair(width: int, height: int, vid: Stream)
    requires "tags" !in vid || (vid["tags"].JObj? && "rotate" !in vid["tags"].fields)
    ensures GetRotatedWidthHeight(width, height, vid) == (width, height)
  {
  }

  /** Applying the adjustment twice with the same descriptor restores the pair. */
  lemma RotationInvolutive(width: int, height: int, vid: Stream)
    requires RotationReadable(vid)
    ensures var (w, h) := GetRotatedWidthHeight(width, height, vid);
            GetRotatedWidthHeight(w, h, vid) == (width, height)
  {
  }

  /** A video descriptor whose only tag is `rotate`. */
  function Rotated(angle: Json): (vid: Stream)
    ensures TagsSubscriptable(vid) && RotateTag(vid) == Some(angle)
  {
    map["codec_type" := JStr("video"), "tags" := JObj(map["rotate" := angle])]
  }

  /** A numeric rotate tag swaps the pair exactly when it is not a multiple of 180. */
  lemma RotatedByInt(width: int, height: int, angle: int)
    ensures GetRotatedWidthHeight(width, height, Rotated(JInt(angle)))
         == if angle % 180 == 0 then (width, height) else (height, width)
  {
    assert PyIntOf(JInt(angle)) == Some(angle);
  }

  /** 90, 270 and -90 swap the pair; 0, 180, 360 and -180 do not. */
  lemma RotationExamples()
    ensures GetRotatedWidthHeight(1920, 1080, Rotated(JInt(90))) == (1080, 1920)
    ensures GetRotatedWidthHeight(1920, 1080, Rotated(JInt(270))) == (1080, 1920)
    ensures GetRotatedWidthHeight(1920, 1080, Rotated(JInt(-90))) == (1080, 1920)
    ensures GetRotatedWidthHeight(1920, 1080, Rotated(JInt(0))) == (1920, 1080)
    ensures GetRotatedWidthHeight(1920, 1080, Rotated(JInt(180))) == (1920, 1080)
    ensures GetRotatedWidthHeight(1920, 1080, Rotated(JInt(360))) == (1920, 1080)
    ensures GetRotatedWidthHeight(1920, 1080, Rotated(JInt(-180))) == (1920, 1080)
  {
    RotatedByInt(1920, 1080, 90);
    RotatedByInt(1920, 1080, 270);
    RotatedByInt(1920, 1080, -90);
    RotatedByInt(1920, 1080, 0);
    RotatedByInt(1920, 1080, 180);
    RotatedByInt(1920, 1080, 360);
    RotatedByInt(1920, 1080, -180);
  }

  /** The prober reports the tag as a string; `"90"` swaps like the number 90. */
  lemma RotationStringExample()
    ensures RotationReadable(Rotated(JStr("90")))
         && GetRotatedWidthHeight(1920, 1080, Rotated(JStr("90"))) == (1080, 1920)
  {
    assert PyText.DecimalString(90) == "90";
    PyText.ParseIntRoundTrip(90);
    assert PyIntOf(JStr("90")) == Some(90);
  }
}

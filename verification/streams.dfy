/** What the resolver reports about one item, and the pure rule that picks the
    best video stream and derives the item's dynamic-range label. The same rule
    is applied when a task is added, when it is edited and when it is fetched
    (video_downloader_V4_HDR.py lines 138-140, 287-289 and 306-308). */
module Streams {
  import opened Wrappers

  /** The codec value by which the resolver marks an audio-only stream. */
  const NoVideoCodec: string := "none"

  /** The label used when no usable video format was selected. */
  const NonHdrLabel: string := "非HDR"

  /** Title and uploader used when the resolver's answer has no such key. */
  const NoTitle: string := "No title"
  const UnknownUploader: string := "Unknown uploader"

  /** One entry of the resolver's `formats` list. In the two optional fields
      `None` stands for an absent key or one holding null, which the rule
      reads alike. `otherKeys` records whether the dictionary holds any key
      at all besides an absent `vcodec` and an absent `dynamic_range`: a
      `vcodec` or `dynamic_range` key holding null sets it, as does any other
      key. It decides whether the dictionary is empty, and so falsy. */
  datatype Format = Format(vcodec: Option<string>, dynamicRange: Option<string>, otherKeys: bool)

  /** The resolver's answer for one item. `title` and `uploader` are read
      with a `get` default, which applies to an absent key only, so they keep
      the absent/null distinction; the item-level `dynamicRange` is read
      without a default, so there `None` stands for absent and null alike. */
  datatype Info = Info(
    title: Field<string>,
    uploader: Field<string>,
    dynamicRange: Option<string>,
    formats: Field<seq<Format>>)

  /** The three display fields of a task derived from a resolver answer; a
      title or uploader is `None` when the answer held null for it. */
  datatype Details = Details(title: Option<string>, uploader: Option<string>, hdr: Option<string>)

  /** A format counts as video unless its codec is literally "none"; a format
      with no `vcodec` key counts as video. */
  predicate IsVideo(f: Format) {
    f.vcodec != Some(NoVideoCodec)
  }

  /** An empty format dictionary, `{}`: selectable as video, but falsy. */
  predicate IsEmptyDict(f: Format) {
    f.vcodec.None? && f.dynamicRange.None? && !f.otherKeys
  }

  /** True when no format in `formats` carries video. */
  predicate NoVideo(formats: seq<Format>) {
    forall i :: 0 <= i < |formats| ==> !IsVideo(formats[i])
  }

  /** True when `i` is the position of the first video format. */
  predicate IsFirstVideo(formats: seq<Format>, i: int) {
    && 0 <= i < |formats|
    && IsVideo(formats[i])
    && forall j :: 0 <= j < i ==> !IsVideo(formats[j])
  }

  function TitleOf(info: Info): Option<string> {
    info.title.Lookup(NoTitle)
  }

  function UploaderOf(info: Info): Option<string> {
    info.uploader.Lookup(UnknownUploader)
  }

  /** Position of the first video format, scanning in resolver order. */
  function FirstVideo(formats: seq<Format>): (r: Option<nat>)
    ensures r.None? <==> NoVideo(formats)
    ensures r.Some? ==> IsFirstVideo(formats, r.value)
  {
    if |formats| == 0 then None
    else if IsVideo(formats[0]) then Some(0)
    else match FirstVideo(formats[1..])
      case None => None
      case Some(i) => Some(i + 1)
  }

  /** The first video format in resolver order, if any. */
  function SelectBestVideo(formats: seq<Format>): (r: Option<Format>)
    ensures r.None? <==> NoVideo(formats)
    ensures forall i :: IsFirstVideo(formats, i) ==> r == Some(formats[i])
  {
    match FirstVideo(formats)
    case None => None
    case Some(i) => Some(formats[i])
  }

  /** The item's dynamic-range label from the item-level value and the
      format list. The result is itself optional: when the selected video
      format is a non-empty dictionary without a `dynamic_range` key the label
      is absent. The sentinel is used when no format carries video, or when
      the selected one is an empty (falsy) dictionary. */
  function DynamicRangeLabel(itemLabel: Option<string>, formats: seq<Format>): (r: Option<string>)
    ensures Truthy(itemLabel) ==> r == itemLabel
    ensures !Truthy(itemLabel) ==>
      forall i :: IsFirstVideo(formats, i) ==>
        r == if IsEmptyDict(formats[i]) then Some(NonHdrLabel) else formats[i].dynamicRange
    ensures !Truthy(itemLabel) && NoVideo(formats) ==> r == Some(NonHdrLabel)
  {
    if Truthy(itemLabel) then itemLabel
    else match SelectBestVideo(formats)
      case Some(f) => if IsEmptyDict(f) then Some(NonHdrLabel) else f.dynamicRange
      case None => Some(NonHdrLabel)
  }

  /** Reading a resolver answer: title and uploader with their defaults, and
      the label. The defaults replace an absent key only; a key holding null
      yields `None`. A `formats` key holding null cannot be iterated, so the
      selection raises TypeError; an absent key reads as the empty list. */
  function Inspect(info: Info): (r: Result<Details>)
    ensures r.Failure? <==> info.formats.Null?
    ensures r.Success? ==>
      && (info.title.Absent? ==> r.value.title == Some(NoTitle))
      && (info.title.Null? ==> r.value.title.None?)
      && (info.title.Present? ==> r.value.title == Some(info.title.value))
      && (info.uploader.Absent? ==> r.value.uploader == Some(UnknownUploader))
      && (info.uploader.Null? ==> r.value.uploader.None?)
      && (info.uploader.Present? ==> r.value.uploader == Some(info.uploader.value))
    ensures info.formats.Absent? ==> r == Success(Details(TitleOf(info), UploaderOf(info),
      if Truthy(info.dynamicRange) then info.dynamicRange else Some(NonHdrLabel)))
    ensures info.formats.Present? ==>
      r == Success(Details(TitleOf(info), UploaderOf(info),
                           DynamicRangeLabel(info.dynamicRange, info.formats.value)))
  {
    match info.formats.Lookup([])
    case None => Failure("TypeError: 'NoneType' object is not iterable")
    case Some(formats) =>
      Success(Details(TitleOf(info), UploaderOf(info), DynamicRangeLabel(info.dynamicRange, formats)))
  }

  /** A title key holding null is kept as `None` rather than replaced by the
      default, while an absent uploader key takes its default. */
  lemma NullTitleKeptScenario()
    ensures Inspect(Info(Null, Absent, None, Present([])))
         == Success(Details(None, Some(UnknownUploader), Some(NonHdrLabel)))
  {
  }

  /** Selection only looks as far as the first video format: on a
      concatenation it answers from the first part when that part has one,
      and from the second part otherwise. */
  lemma {:induction false} SelectConcat(a: seq<Format>, b: seq<Format>)
    ensures SelectBestVideo(a + b)
         == if NoVideo(a) then SelectBestVideo(b) else SelectBestVideo(a)
  {
    if |a| == 0 {
      assert a + b == b;
    } else {
      assert (a + b)[0] == a[0];
      assert (a + b)[1..] == a[1..] + b;
      SelectConcat(a[1..], b);
      if !IsVideo(a[0]) {
        assert NoVideo(a) <==> NoVideo(a[1..]) by {
          if NoVideo(a[1..]) {
            forall i | 0 <= i < |a| ensures !IsVideo(a[i]) {
              if i > 0 { assert a[i] == a[1..][i - 1]; }
            }
          }
        }
        match FirstVideo(a[1..] + b)
        case None =>
        case Some(k) =>
          assert FirstVideo(a + b) == Some(k + 1);
      }
    }
  }

  /** The label is absent exactly when the item-level value is falsy and the
      selected video format is a non-empty dictionary without a label of its
      own; it is never absent for an item without video. */
  lemma LabelAbsentOnlyFromVideo(itemLabel: Option<string>, formats: seq<Format>)
    ensures DynamicRangeLabel(itemLabel, formats).None? <==>
      !Truthy(itemLabel)
      && exists i :: IsFirstVideo(formats, i) && !IsEmptyDict(formats[i]) && formats[i].dynamicRange.None?
  {
  }

  /** A first video format that is an empty dictionary gets the sentinel,
      although it was selected. */
  lemma EmptyFormatGetsSentinel()
    ensures DynamicRangeLabel(None, [Format(None, None, false)]) == Some(NonHdrLabel)
  {
    assert IsFirstVideo([Format(None, None, false)], 0);
  }
}

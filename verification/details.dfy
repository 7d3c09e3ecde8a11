/** `get_video_details`: reject a request without a URL, otherwise describe
    what yt-dlp reports about the video.  The yt-dlp call is a parameter: either
    the info dictionary it returned or the text of the exception it raised. */
module Details {
  import opened Wrappers
  import opened Replies
  import Formats
  import UploadDate

  /** The keys of yt-dlp's info dictionary the route reads.  The upload date is
      read with `get` and no default, which answers `None` alike for a missing
      key and a key holding `None`. */
  datatype RawInfo = RawInfo(
    title: Field<string>, thumbnail: Field<string>, description: Field<string>,
    channel: Field<string>, viewCount: Field<int>, uploadDate: Option<string>,
    formats: Field<seq<Formats.RawFormat>>)

  /** Every format of the reply, described one by one in yt-dlp's order. */
  function DescribeAll(raw: seq<Formats.RawFormat>): (fs: seq<Formats.FormatDescriptor>)
    ensures |fs| == |raw|
    ensures forall i :: 0 <= i < |raw| ==> fs[i] == Formats.DescribeFormat(raw[i])
    ensures forall i :: 0 <= i < |raw| ==>
      && fs[i].formatId == raw[i].formatId.Get("N/A")
      && fs[i].ext == raw[i].ext.Get("N/A")
      && (fs[i].resolution == Formats.AudioOnly <==> raw[i].height.None? || raw[i].height.value == 0)
      && (fs[i].fileSize.Unknown? <==> raw[i].filesize.None? || raw[i].filesize.value == 0)
  {
    if raw == [] then [] else [Formats.DescribeFormat(raw[0])] + DescribeAll(raw[1..])
  }

  /** The route.  A falsy URL is a 400 before yt-dlp is consulted; an exception
      from yt-dlp is a 500 carrying its text, and so is a format list that is
      `None`, which the loop over it cannot iterate.  Otherwise a missing text
      field reads `"N/A"`, a missing view count 0 and a missing format list
      `[]`, while a key holding `None` is sent as `null`; the upload date is
      formatted and every format described. */
  function GetVideoDetails(url: JsonValue, fetched: Result<RawInfo, string>): (r: Reply)
    ensures r == Error(400, NoUrl) <==> !Truthy(url)
    ensures Truthy(url) && fetched.Failure? ==> r == Error(500, FetchFailed + fetched.error)
    ensures Truthy(url) && fetched.Success? && fetched.value.formats.NoneValue? ==>
      r == Error(500, FetchFailed + NoneNotIterable)
    ensures Truthy(url) && fetched.Success? && !fetched.value.formats.NoneValue? ==> (r.Details? &&
      var info, d := fetched.value, r.details;
      && d.title == info.title.Get("N/A")
      && d.thumbnail == info.thumbnail.Get("N/A")
      && d.description == info.description.Get("N/A")
      && d.channel == info.channel.Get("N/A")
      && d.views == info.viewCount.Get(0)
      && d.uploadDate == UploadDate.FormatUploadDate(info.uploadDate)
      && (d.uploadDate == UploadDate.NotAvailable <==>
           info.uploadDate.None? || UploadDate.ParseDate(info.uploadDate.value).None?)
      && d.formats == DescribeAll(if info.formats.Present? then info.formats.value else []))
  {
    if !Truthy(url) then Error(400, NoUrl)
    else
      match fetched
      case Failure(e) => Error(500, FetchFailed + e)
      case Success(info) =>
        match info.formats
        case NoneValue => Error(500, FetchFailed + NoneNotIterable)
        case Missing => Details(Describe(info, []))
        case Present(raw) => Details(Describe(info, raw))
  }

  /** The reply's dictionary, built key by key, for the given format list. */
  function Describe(info: RawInfo, raw: seq<Formats.RawFormat>): VideoDetails {
    VideoDetails(
      info.title.Get("N/A"), info.thumbnail.Get("N/A"),
      info.description.Get("N/A"), info.channel.Get("N/A"),
      info.viewCount.Get(0), UploadDate.FormatUploadDate(info.uploadDate),
      DescribeAll(raw))
  }
}

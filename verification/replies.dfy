/** What the four routes share: the download folder, the JSON values a request
    carries, Python truthiness on them, and the replies the routes send. */
module Replies {
  import opened Wrappers
  import Formats
  import Paths

  /** `DOWNLOAD_FOLDER`, a path relative to the working directory. */
  const Folder := "downloads"

  /** A value read from the request body with `data.get(key)`; `Null` stands for
      both a missing key and an explicit `null`.  Of a number with a fraction,
      an array and an object only what truthiness and the type name need is kept. */
  datatype JsonValue =
    | Null
    | Str(text: string)
    | Int(number: int)
    | Bool(flag: bool)
    | Float(isZero: bool)
    | Array(length: nat)
    | Object(size: nat)

  /** Python truthiness: `None`, `""`, `0`, `False`, `0.0`, `[]` and `{}` are false. */
  predicate Truthy(v: JsonValue) {
    match v
    case Null => false
    case Str(s) => s != ""
    case Int(i) => i != 0
    case Bool(b) => b
    case Float(z) => !z
    case Array(n) => n != 0
    case Object(n) => n != 0
  }

  /** The falsy values, as `if not url` and `if not resolution` test them. */
  lemma FalsyValues(v: JsonValue)
    ensures !Truthy(v) <==> v in {Null, Str(""), Int(0), Bool(false), Float(true), Array(0), Object(0)}
  {
  }

  /** `type(v).__name__` for the value `json.loads` builds. */
  function TypeName(v: JsonValue): string {
    match v
    case Null => "NoneType"
    case Str(_) => "str"
    case Int(_) => "int"
    case Bool(_) => "bool"
    case Float(_) => "float"
    case Array(_) => "list"
    case Object(_) => "dict"
  }

  /** The details `get_video_details` sends back; `None` is a JSON `null`. */
  datatype VideoDetails = VideoDetails(
    title: Option<string>, thumbnail: Option<string>, description: Option<string>,
    channel: Option<string>, views: Option<int>, uploadDate: string,
    formats: seq<Formats.FormatDescriptor>)

  /** A route's reply.  `Error` carries the HTTP status and the `error` text;
      the other replies are sent with status 200. */
  datatype Reply =
    | Error(status: int, message: string)
    | Details(details: VideoDetails)
    | Downloaded(fileName: string)
    | SendFile(path: string, downloadName: string)
    | Cleaned

  const NoUrl := "No URL provided"
  const FetchFailed := "Failed to fetch video details: "
  /** The text of the `TypeError` a `for` loop over `None` raises. */
  const NoneNotIterable := "'NoneType' object is not iterable"
  const InvalidUrl := "Invalid YouTube URL"
  const NoResolution := "No Resolution provided"
  const DownloadFailed := "Failed to download video: "
  const InvalidPath := "Invalid file path"
  const FileNotFound := "File not found"
  const DeleteFailed := "Failed to delete "

  /** The text of the `TypeError` that `re.match` raises on a value that is
      not a string, as Python 3.12 words it. */
  function NotAStringText(v: JsonValue): (t: string)
    ensures Paths.StartsWith(t, TypeErrorPrefix)
    ensures Paths.EndsWith(t, "'" + TypeName(v) + "'")
  {
    TypeErrorPrefix + ", got '" + TypeName(v) + "'"
  }

  /** What every Python 3 version says first about a non-string given to `re.match`. */
  const TypeErrorPrefix := "expected string or bytes-like object"

  const NoSuchFileText := "[Errno 2] No such file or directory"

  /** The text of the `FileNotFoundError` that `os.rename(src, dst)` raises when
      `src` is missing: the two paths as `repr` quotes plain names. */
  function RenameMissingText(src: string, dst: string): (t: string)
    ensures Paths.StartsWith(t, NoSuchFileText + ": '" + src + "'")
    ensures Paths.EndsWith(t, "'" + dst + "'")
  {
    NoSuchFileText + ": '" + src + "' -> '" + dst + "'"
  }
}

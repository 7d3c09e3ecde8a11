# yt-video-downloader-backend, modelled in Dafny

The service is a small Flask application, `app.py`. It has four routes:

- `POST /get_video_details` asks yt-dlp about a YouTube URL and answers with the title, channel, views, upload date and the list of formats. Each format carries a resolution label and a human-readable file size.
- `POST /download-video` checks the URL against a YouTube pattern and requires a resolution. It lets yt-dlp download the video into the `downloads` folder. It then gives the file a sanitized name that no file in the folder uses yet, and answers with that name.
- `GET /get_video/<file_name>` sends a file from `downloads`. A name that resolves outside the folder gets 403; a missing file gets 404.
- `DELETE /cleanup` deletes every regular file in `downloads` and stops at the first failing deletion.

This project models the decisions those routes make, and the helpers they use, as pure Dafny functions:

- `format_upload_date`, with the lenient pattern `strptime` matches for `%Y%m%d`;
- `sanitize_filename`;
- `ensure_unique_filename`;
- `format_filesize` and the resolution label;
- the parts of `posixpath` the routes rely on: `join`, `basename`, `splitext`, `normpath` and `abspath`.

The model replaces the outside world with parameters:

- The filesystem is the set of paths that exist.
- The working directory is a string.
- What yt-dlp returns, or the text of the exception it raises, is a `Result`.
- A key of yt-dlp's info dictionary is missing, holds `None`, or holds a value; `get` with a default treats the first two differently.
- The failure of a rename or of a deletion is an `Option` holding the error text.

The modules are:

- `Wrappers`: `Option`, `Result`, and `Field`, a dictionary key that is missing, holds `None`, or holds a value.
- `Decimal`: `str` of an integer, and the parser that reads it back.
- `Sanitize`, `Paths`, `UniqueName`, `UploadDate`, `Formats`: the helpers.
- `UrlPattern`: the URL regex as a direct matcher, proved equal to the language of the pattern.
- `Replies`: request values and replies.
- `Details`, `Download`, `Serve`, `Cleanup`: one module per route.

## Model

| member | source | states |
|---|---|---|
| Decimal.IntToStringRoundTrip | app.py:82 | `int(str(h)) == h` for every integer, so the text in a resolution label reads back as the height |
| Decimal.IntFormIsCanonical | app.py:82 | every text in `str`'s form (no leading zero, no `-0`) is `str` of its value, so each height has exactly one label |
| Decimal.NatToString | app.py:35 | `str(n)` of a counter: digits only, with no leading zero unless the number is 0 |
| Decimal.IntToString | app.py:82 | `str(h)` of a height: the form `str` writes (no leading zero, no `-0`), with a minus sign exactly when the height is negative |
| Decimal.NatToStringInjective | app.py:35 | distinct counters are written as distinct decimal texts |
| Sanitize.SanitizeFilename | app.py:24-27 | the result has no unsafe character and no space, and is shorter than the input by exactly the number of unsafe characters |
| Sanitize.RemoveUnsafe | app.py:26 | the `re.sub` pass shortens the text by exactly the number of class characters, and leaves none of them |
| Sanitize.RemoveUnsafeChar | app.py:26 | on one character the pass deletes it if it is one of the nine in the class and keeps it otherwise |
| Sanitize.RemoveUnsafeConcat | app.py:26 | the pass works character by character, so with `RemoveUnsafeChar` the safe characters stay, in their order |
| Sanitize.ReplaceSpaces | app.py:27 | `replace(' ', '_')` keeps the length and turns every space, and only spaces, into `_` |
| Sanitize.SanitizeConcat | app.py:26-27 | sanitizing works character by character: the result for a concatenation is the concatenation of the results |
| Sanitize.SanitizeChar | app.py:26-27 | one character is deleted if unsafe, becomes `_` if it is a space, and is kept otherwise |
| Sanitize.SanitizeFixedPoint | app.py:24-27 | a name is left unchanged exactly when it is already clean |
| Sanitize.SanitizeIdempotent | app.py:24-27 | sanitizing twice gives the same as sanitizing once |
| Paths.Join | app.py:127 | `os.path.join`: an absolute second part replaces the first; otherwise the result starts with the first part and ends with the second |
| Paths.JoinSeparator | app.py:127 | with a relative second part, `os.path.join` puts exactly one separator between the parts, and leaves it out exactly when the first part is empty or already ends with one |
| Paths.Basename | app.py:126 | `os.path.basename` is the longest separator-free suffix: a separator comes right before it, or it is the whole path |
| Paths.LastIndexOfUnique | app.py:126 | any position holding the character, with none after it, is the one `rfind` reports |
| Paths.SplitExt | app.py:32 | `os.path.splitext`: the two parts concatenate back to the path; the extension is empty, or is a dot followed by characters that are neither dots nor separators |
| Paths.SplitExtCuts | app.py:32 | conversely, the extension is left empty only when every dot of the last component has nothing but dots before it there, so `video.mp4` always has its extension cut |
| Paths.SplitExtExample | app.py:32 | `downloads/video.mp4` splits into `downloads/video` and `.mp4` |
| Paths.SplitExtStem | app.py:32 | an extension is cut off only when the last component before it has something other than dots (`.bashrc` keeps its name) |
| Paths.JoinSplit | app.py:153 | splitting a path at its separators and joining the pieces again gives the path back |
| Paths.SplitJoin | app.py:153 | joining separator-free pieces and splitting again gives the pieces back |
| Paths.Normpath | app.py:153 | `os.path.normpath` never returns an empty path |
| Paths.AbsolutePiecesNormal | app.py:153 | every piece `normpath` keeps in an absolute path is non-empty, separator-free, and neither `.` nor `..` |
| Paths.AbspathAbsolute | app.py:153 | `abspath` against an absolute working directory gives an absolute path, whatever path it is given |
| Paths.AbspathRelative | app.py:153 | `abspath` of a relative path is the working directory's leading separators, then `normpath`'s loop continued from the directory's pieces |
| Paths.PiecePrefix | app.py:153-156 | if a normalised absolute path is another one, or continues it after a separator, then the other's pieces are a prefix of its pieces |
| UniqueName.CandidateInjective | app.py:35 | different counters give different candidate names |
| UniqueName.TakenBound | app.py:34 | if the first n candidates all exist, at least n paths exist, so the search ends |
| UniqueName.LeastFreeCounter | app.py:33-36 | the counter found is free, and every smaller counter from 1 up is taken |
| UniqueName.UniqueFilename | app.py:30-37 | the result does not exist; a free path is kept; otherwise the result is `base_n + ext` with `splitext` of the path, for the least n ≥ 1 that is free |
| UniqueName.EnsureUniqueFilename | app.py:30-37 | the `while` loop as written ends, and returns what `UniqueFilename` specifies |
| UploadDate.MonthAlternative | app.py:19 | each alternative of `%m` takes one or two characters, starting with a digit, and reads them as a number |
| UploadDate.FirstDayAlternative | app.py:19 | the first alternative of `%d` that matches takes one or two characters and reads them as a number; a leading space is ignored |
| UploadDate.MatchDateFormat | app.py:19 | a match begins with four digits, and its groups stay within the string |
| UploadDate.ParseDate | app.py:19-21 | what `strptime` returns is a date in the calendar, from year 1 to 9999, with the day within its month |
| UploadDate.FormatUploadDate | app.py:17-21 | `"N/A"` exactly when the value is missing or `strptime` rejects it; otherwise `YYYY-MM-DD`, whose digit groups read back as the parsed year, month and day |
| UploadDate.FormatIsoDate | app.py:19 | `strftime("%Y-%m-%d")` writes ten characters, with hyphens at positions 4 and 7 |
| UploadDate.IsoDateGroups | app.py:19 | the three digit groups `strftime` writes are the year, month and day zero-padded to four, two and two digits, and read back as them |
| UploadDate.FixedDigitsOfParse | app.py:19 | printing a parsed digit group back at its own width gives the group again |
| UploadDate.EightDigitDate | app.py:19 | on eight digits the lenient pattern behaves like a fixed 4-2-2 layout: the result is that reading when it is a calendar date, and nothing otherwise |
| UploadDate.UploadDateEightDigits | app.py:17-21 | eight digits are reported exactly when the 4-2-2 reading is a calendar date, and then as the input with two hyphens inserted |
| UploadDate.UploadDateRoundTrip | app.py:17-21 | removing the two hyphens from a reported date gives the eight input digits back |
| UploadDate.UploadDateExample | app.py:17-21 | `20230115` is reported as `2023-01-15` |
| UploadDate.UploadDateLeapDay | app.py:19 | February 29th exists in 2024 |
| UploadDate.UploadDateCommonYear | app.py:19-21 | February 29th of 2023 gives `"N/A"` |
| UploadDate.UploadDateMonthThirteen | app.py:19-21 | a thirteenth month gives `"N/A"` |
| UploadDate.UploadDateFebruaryThirty | app.py:19-21 | February 30th gives `"N/A"` |
| UploadDate.UploadDateSevenChars | app.py:19 | because the pattern is lenient, `2023111` is accepted as November 1st |
| UploadDate.UploadDateSpacedDay | app.py:19 | a space before a one-digit day is accepted, and names the same day as a leading zero |
| Formats.ResolutionLabel | app.py:82 | `"audio only"` exactly when the height is missing or 0; otherwise `str(height)` followed by `p`, with no leading zero, reading back as the height |
| Formats.ScaleFrom | app.py:65-69 | the loop stops at the first unit whose amount is below 1024, since at every unit before it the amount was 1024 or more, and falls through to TB; the amount is the size divided by 1024 once per unit climbed |
| Formats.FormatFilesize | app.py:62-69 | `"Unknown"` exactly when the size is missing or 0; otherwise the size divided by 1024 once per unit climbed, and the unit is the first at which the amount is below 1024, or TB |
| Formats.FilesizeUnitByThresholds | app.py:65-69 | the repeated division chooses the same unit as the integer thresholds 1024, 1024², 1024³ and 1024⁴ |
| Formats.FilesizeExamples | app.py:62-69 | 1536 bytes are 1.5 KB, 1048576 bytes are 1 MB, and 0 or missing is `"Unknown"` |
| Formats.DescribeFormat | app.py:80-85 | the identifier and extension are `"N/A"` for a missing key and `null` for a key holding `None`; the label is the resolution label of the height and the size is the formatted size, so `"audio only"` exactly when there is no height and unknown exactly when there is no size |
| Details.DescribeAll | app.py:79-87 | one descriptor per format reported, in order, each the description of the format at the same position |
| Details.GetVideoDetails | app.py:41-93 | a falsy URL, and only that, is a 400; a yt-dlp failure is a 500 with its text, and so is a format list holding `None`, which cannot be iterated; otherwise a missing field takes its default and a field holding `None` is sent as `null`, the upload date is the formatted date (`"N/A"` exactly when it does not parse), and the formats are described in order |
| UrlPattern.IsVideoUrlCorrect | app.py:105 | the direct matcher accepts exactly the strings the anchored pattern matches, including `$` before one final newline |
| UrlPattern.SchemeGroup | app.py:105 | stripping whichever scheme is present loses no match of `(https?://)?` |
| UrlPattern.HostGroup | app.py:105 | stripping `www.` whenever it is present loses no match of `(www\.)?` |
| UrlPattern.DomainGroup | app.py:105 | the two domains are told apart by their spelling; the rest must be a slash and a path tail |
| UrlPattern.PathTailExamples | app.py:105 | `.+$` needs one or more characters, and allows one final newline but no other |
| Replies.FalsyValues | app.py:105-108 | `if not url` and `if not resolution` refuse exactly `None`, `""`, `0`, `False`, `0.0`, `[]` and `{}` |
| Replies.NotAStringText | app.py:105 | the `TypeError` text of `re.match` on a non-string starts with the words every Python 3 version prints and ends with the value's quoted type name |
| Replies.RenameMissingText | app.py:134-136 | the `FileNotFoundError` text of `os.rename` starts with `[Errno 2] No such file or directory` and the quoted source, and ends with the quoted destination |
| Download.ValidateDownload | app.py:104-109 | in the route's order: a falsy URL or one the pattern rejects is a 400, a non-string URL is a 500 with `re.match`'s `TypeError` text, and only then is a falsy resolution a 400 |
| Download.ValidationByPattern | app.py:104-106 | the same validation stated against the language of the regex: which values are refused as an invalid URL, and which requests get through |
| Download.TargetPath | app.py:126-127 | the target is directly inside the folder, and its name is the sanitized basename of the file yt-dlp wrote |
| Download.FinishDownload | app.py:130-142 | the reply names a file exactly when the source exists and the rename succeeds: the file moves to the path the uniqueness search found, which was not among the paths searched; any other outcome is a 500 that leaves the files alone |
| Download.DownloadVideo | app.py:96-145 | validation first, then a yt-dlp failure as a 500; otherwise the file moves to the unused path found for its sanitized basename and the reply names it; a missing source or a failed rename is a 500 that changes nothing; a reply names a clean file in the folder that was not in use, so nothing is overwritten |
| Download.UniqueStaysInFolder | app.py:126-130 | the unused path found for a clean name in the folder is again a clean name in the folder |
| Download.CleanDownloadIsRenamed | app.py:126-136 | as written, a download whose name sanitizing leaves unchanged is always renamed, even in an otherwise empty folder |
| Download.DownloadVideoCorrected | app.py:126-142 | with the downloaded file left out of the uniqueness search: the same replies and guarantees, except that the new path may be the downloaded file's own |
| Download.CleanDownloadKeepsName | app.py:126-142 | corrected, such a download keeps its name and leaves the folder as it was |
| Serve.GetVideo | app.py:148-166 | a 403 exactly when the resolved path does not start with the folder's absolute path; a 404 exactly when it passes that test and does not exist; a resolved path that passes the test and exists is sent, under the requested name; whatever is sent is that resolved path, so it starts with the folder's absolute path |
| Serve.PlainNameResolves | app.py:152-153 | a separator-free name resolves to something shorter than the folder for `..`, to the folder for `""` and `.`, and to the folder, a separator and the name otherwise |
| Serve.GetVideoRefusesOnlyParent | app.py:151-157 | for separator-free names, the only ones the route can receive, exactly `..` is refused |
| Serve.SiblingFolderPasses | app.py:156 | as written, `../downloads2` resolves to the folder's path followed by `2` and is not refused |
| Serve.GetVideoCorrected | app.py:155-157 | the same route with the containment test the comment asks for: a 403 exactly when the resolved path is neither the folder nor continues it after a separator, a 404 exactly when it is inside and missing, and otherwise that resolved path is sent, so every file sent lies inside the folder |
| Serve.CorrectedAgreesOnPlainNames | app.py:156 | on separator-free names the corrected test answers exactly as the test as written |
| Serve.CorrectedRefusesSibling | app.py:156 | the corrected test refuses `../downloads2` |
| Serve.CorrectedStaysInside | app.py:155-157 | with the corrected test, any name that is not refused resolves to the folder's pieces followed by zero or more pieces |
| Cleanup.FileNames | app.py:171-175 | the names `os.unlink` is applied to when nothing fails: a name is listed exactly when some listed entry with that name is a file, and there are no more names than entries |
| Cleanup.FirstFailure | app.py:171-177 | the position of the first file whose deletion fails, if there is one; no earlier file fails |
| Cleanup.CleanupFolder | app.py:169-179 | with no failing deletion every file is deleted and the reply is the success message; otherwise the files before the first failure are deleted and the reply is a 500 naming that entry and its error |

## Left out

- yt-dlp itself is not modelled: option building (app.py:51-55 and 112-118), the format selector built from `resolution`, the `outtmpl` naming and the network. What it returns, or the text of the exception it raises, is a parameter.
- Flask is not modelled: request parsing, `jsonify`, CORS and the HTTP transport. A reply is a datatype holding the status and the message.
- Replies.JsonValue: a request body that is not JSON or not an object is not modelled. Then `request.json` or `data.get` raises inside the `try`, and the route answers 500. The model starts from the values `data.get` returned. Of a float, an array and an object it keeps only what truthiness and the type name need.
- Details.GetVideoDetails: the info dictionary and its format entries are taken to be dictionaries whose values have the expected types (strings, integers, a list of dictionaries). A value of another type, such as a float height, is not modelled.
- Replies.NotAStringText: the text is the wording of Python 3.12 and later, "expected string or bytes-like object, got '<type>'". Older versions stop after "object". The contract states only the prefix every version shares, and the type name at the end.
- Replies.RenameMissingText: Python writes both paths with `repr`. The model writes them between plain single quotes, so paths containing a quote, a backslash or a non-printable character are spelled differently.
- Download.DownloadVideo: `os.rename` failures other than a missing source are the `renameFailure` parameter. The time between the existence check and the rename is not modelled, so a file created by a concurrent request in between is not considered.
- UploadDate.FormatUploadDate: `\d` in `strptime`'s pattern also matches non-ASCII Unicode digits, and the model accepts ASCII digits only. A non-string value other than `None` (also a `TypeError`, so also `"N/A"`) is not modelled; yt-dlp reports a string or nothing.
- UploadDate.FormatIsoDate: the year is always written with four digits. Some platforms' `strftime("%Y")` prints years below 1000 without padding (glibc prints `999`), and the model does not follow that.
- Formats.FormatFilesize: amounts are exact reals, not floats divided by 1024. The two-decimal rendering `f"{size:.2f}"` is not modelled. The `OverflowError` for a size beyond float range is not modelled. A size of 0 gives `"Unknown"`, as the code's `if not size` does; the model follows the code.
- Paths.Normpath: only POSIX `posixpath` is modelled (the separator `/`, and POSIX's two leading separators). Windows `ntpath` is not modelled.
- Serve.GetVideo: `existing` does not tell files from directories. `send_file` raises on a directory, and the route then answers 500 rather than sending. The folder itself is such a directory, reached through `.` (see `Serve.SelfAccepted`). `os.getcwd()` is an absolute string parameter.
- Cleanup.CleanupFolder: a failing `os.listdir` is not modelled; it is outside the `try`, so Flask answers 500. The order of the listing and `os.path.isfile` are inputs.
- The start-up code that creates `downloads` (app.py:12-14), and `app.run`, are not modelled.

## Findings

| source | as written | input that shows it | evidently intended | confidence | as-written member | corrected member |
|---|---|---|---|---|---|---|
| app.py:130 | `ensure_unique_filename(sanitized_path)` tests existence against every path, the just-downloaded file included. For a name that sanitizing leaves unchanged, that file is the sanitized path. | yt-dlp writes `downloads/video.mp4` into an empty folder. The file `downloads/video.mp4` exists, so the reply names `video_1.mp4`. | The downloaded file should not count as a collision with itself, so the name is kept. `Download.DownloadVideoCorrected` leaves it out of the search. | not executed | Download.CleanDownloadIsRenamed | Download.CleanDownloadKeepsName |
| app.py:156 | Containment is `file_path.startswith(os.path.abspath(DOWNLOAD_FOLDER))`, a string-prefix test. | The name `../downloads2` resolves to the folder's path followed by `2`, which starts with the folder's path, so it is not refused. The flaw is latent: Flask's default `<file_name>` converter does not match a `/`, so this name cannot reach the route. `Serve.CorrectedAgreesOnPlainNames` proves that on every separator-free name the two tests decide alike. | The resolved path is the folder or continues it after a separator (`Serve.GetVideoCorrected`). | not executed | Serve.SiblingFolderPasses | Serve.CorrectedStaysInside |

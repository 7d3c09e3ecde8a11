/** How `get_video_details` describes each format yt-dlp reports: a resolution
    label and a human-readable file size. */
module Formats {
  import opened Wrappers
  import Decimal

  const AudioOnly := "audio only"

  /** `f"{f['height']}p" if f.get('height') else "audio only"`: a missing height
      and a height of 0 are both falsy.  Otherwise the label is a decimal text in
      the form `str` writes (no leading zero, a minus only for a negative height)
      followed by `p`, and that text reads back as the height; by
      `Decimal.IntFormIsCanonical` there is only one such text. */
  function ResolutionLabel(height: Option<int>): (text: string)
    ensures text == AudioOnly <==> height.None? || height.value == 0
    ensures height.Some? && height.value != 0 ==>
      && |text| >= 2 && text[|text| - 1] == 'p'
      && Decimal.IsIntForm(text[..|text| - 1])
      && Decimal.IsIntText(text[..|text| - 1])
      && Decimal.ParseInt(text[..|text| - 1]) == height.value
  {
    match height
    case None => AudioOnly
    case Some(h) =>
      if h == 0 then AudioOnly
      else
        var digits := Decimal.IntToString(h);
        Decimal.IntToStringRoundTrip(h);
        assert (digits + "p")[..|digits|] == digits;
        digits + "p"
  }

  datatype Unit = B | KB | MB | GB | TB

  /** A formatted size: `"Unknown"`, or an amount in a unit.  The two-decimal
      rendering of the amount is not modelled. */
  datatype FileSize = Unknown | Sized(amount: real, unit: Unit)

  function UnitIndex(u: Unit): nat {
    match u
    case B => 0
    case KB => 1
    case MB => 2
    case GB => 3
    case TB => 4
  }

  const LoopUnits: seq<Unit> := [B, KB, MB, GB]

  /** `size` divided by 1024, `k` times over. */
  function Shrink(size: real, k: nat): real
    decreases k
  {
    if k == 0 then size else Shrink(size / 1024.0, k - 1)
  }

  /** The loop of `format_filesize` entered at unit `i` with `size` already
      divided `i` times: stop at the first unit where the amount is below 1024,
      and fall through to TB after GB. */
  function ScaleFrom(size: real, i: nat): (f: FileSize)
    requires i <= 4
    ensures f.Sized? && UnitIndex(f.unit) >= i
    ensures f.amount == Shrink(size, UnitIndex(f.unit) - i)
    ensures f.unit != TB ==> f.amount < 1024.0
    ensures forall k :: 0 <= k < UnitIndex(f.unit) - i ==> Shrink(size, k) >= 1024.0
    decreases 4 - i
  {
    if i == 4 then Sized(size, TB)
    else if size < 1024.0 then
      assert UnitIndex(LoopUnits[i]) == i;
      Sized(size, LoopUnits[i])
    else
      var f := ScaleFrom(size / 1024.0, i + 1);
      assert forall k :: 1 <= k < UnitIndex(f.unit) - i ==> Shrink(size, k) == Shrink(size / 1024.0, k - 1);
      f
  }

  /** `format_filesize`.  A missing size and a size of 0 are falsy and give
      `"Unknown"`; any other size is divided by 1024 once per unit climbed, the
      unit is the first at which the amount is under 1024, and only TB may
      hold 1024 or more. */
  function FormatFilesize(size: Option<int>): (f: FileSize)
    ensures f.Unknown? <==> size.None? || size.value == 0
    ensures f.Sized? ==> f.amount == Shrink(size.value as real, UnitIndex(f.unit))
    ensures f.Sized? && f.unit != TB ==> f.amount < 1024.0
    ensures f.Sized? ==> var amount := size.value as real;
      forall k :: 0 <= k < UnitIndex(f.unit) ==> Shrink(amount, k) >= 1024.0
  {
    match size
    case None => Unknown
    case Some(n) => if n == 0 then Unknown else ScaleFrom(n as real, 0)
  }

  /** The unit chosen by integer thresholds: B below 1024, KB below 1024^2,
      MB below 1024^3, GB below 1024^4, TB from there on. */
  function UnitFor(n: int): Unit {
    if n < 1024 then B
    else if n < 1024 * 1024 then KB
    else if n < 1024 * 1024 * 1024 then MB
    else if n < 1024 * 1024 * 1024 * 1024 then GB
    else TB
  }

  /** The repeated division picks the same unit as the integer thresholds. */
  lemma FilesizeUnitByThresholds(n: int)
    requires n != 0
    ensures FormatFilesize(Some(n)) == Sized(FormatFilesize(Some(n)).amount, UnitFor(n))
  {
    var x := n as real;
    if n >= 1024 {
      assert x / 1024.0 >= 1.0;
      if n >= 1024 * 1024 {
        assert x / 1024.0 / 1024.0 >= 1.0;
        if n >= 1024 * 1024 * 1024 {
          assert x / 1024.0 / 1024.0 / 1024.0 >= 1.0;
        }
      }
    }
  }

  /** Examples, by unit: 1536 bytes are 1.5 KB and 1048576 bytes are 1 MB;
      zero bytes are "Unknown". */
  lemma FilesizeExamples()
    ensures FormatFilesize(Some(1536)) == Sized(1.5, KB)
    ensures FormatFilesize(Some(1048576)) == Sized(1.0, MB)
    ensures FormatFilesize(Some(0)) == Unknown
    ensures FormatFilesize(None) == Unknown
  {
  }

  /** The raw format record yt-dlp reports (only the keys the service reads).
      Height and size are read with `get` and no default, which answers `None`
      alike for a missing key and a key holding `None`. */
  datatype RawFormat = RawFormat(formatId: Field<string>, height: Option<int>, filesize: Option<int>, ext: Field<string>)

  /** One entry of the `formats` list in the service's reply; `None` is a JSON `null`. */
  datatype FormatDescriptor = FormatDescriptor(formatId: Option<string>, resolution: string, fileSize: FileSize, ext: Option<string>)

  /** One entry of the reply: identifier and extension are `"N/A"` when the
      key is missing and `null` when it holds `None`; the label is the
      resolution label of the height and the size the formatted size, so the
      label says "audio only" exactly when there is no height, and the size is
      unknown exactly when there is no size. */
  function DescribeFormat(f: RawFormat): (d: FormatDescriptor)
    ensures d.formatId == f.formatId.Get("N/A") && d.ext == f.ext.Get("N/A")
    ensures d.formatId.None? <==> f.formatId.NoneValue?
    ensures d.resolution == ResolutionLabel(f.height) && d.fileSize == FormatFilesize(f.filesize)
    ensures d.resolution == AudioOnly <==> f.height.None? || f.height.value == 0
    ensures d.fileSize.Unknown? <==> f.filesize.None? || f.filesize.value == 0
  {
    FormatDescriptor(f.formatId.Get("N/A"), ResolutionLabel(f.height), FormatFilesize(f.filesize), f.ext.Get("N/A"))
  }
}

/**
 * The part of the application object that the format fetch updates: every
 * descriptor the probe reported, and the filtered list the quality buttons are
 * built from.
 */
module Downloader {
  import opened Wrappers
  import opened FormatFilter

  /** What probing a URL returns: the metadata, whose format list may be missing. */
  datatype VideoInfo = VideoInfo(formats: Option<seq<FormatDescriptor>>)

  /** `info.get('formats', [])`. */
  function FormatsOf(info: VideoInfo): (fs: seq<FormatDescriptor>)
    ensures info.formats.None? ==> fs == []
    ensures info.formats.Some? ==> fs == info.formats.value
  {
    info.formats.GetOr([])
  }

  class App {
    var allFormats: seq<FormatDescriptor>
    var formats: seq<FormatDescriptor>

    /** Both lists start empty. */
    constructor ()
      ensures allFormats == [] && formats == []
    {
      allFormats := [];
      formats := [];
    }

    /** A probe succeeded: keep every descriptor, store the filtered list, and say
        whether any quality can be offered (an empty list is not an error). */
    method ReceiveFormats(info: VideoInfo) returns (found: bool)
      modifies this
      ensures allFormats == FormatsOf(info)
      ensures formats == Filtered(allFormats)
      ensures forall k :: 0 <= k < |formats| ==> Qualifies(formats[k])
      ensures forall j, k :: 0 <= j < k < |formats| ==> KeyOf(formats[j]) != KeyOf(formats[k])
      ensures found <==> exists k :: 0 <= k < |allFormats| && Qualifies(allFormats[k])
    {
      var fs := FormatsOf(info);
      allFormats := fs;
      formats := FilterFormats(fs);
      FilteredKeysDistinct(fs);
      FilteredEmptyIff(fs);
      found := formats != [];
    }
  }
}

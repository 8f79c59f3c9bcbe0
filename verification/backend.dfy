/** The extraction backend as the downloader sees it: the info record a probe
    returns, the "is this URL supported" verdict, the format selector, and
    the overwrite flags handed to every download attempt. */
module Backend {
  import opened Common

  /** The fields of the backend's info dictionary that the decisions read.
      `formats` and `entries` count the list entries (a missing list is 0). */
  datatype Info = Info(
    extractor: Option<string>,
    extractorKey: Option<string>,
    ieKey: Option<string>,
    formats: nat,
    entries: nat,
    id: Option<string>,
    title: Option<string>,
    webpageUrl: Option<string>)

  /** A probe either raises or returns an info record. */
  datatype ProbeResult = ProbeRaised | ProbeInfo(info: Info)

  /** `extractor or extractor_key or ie_key`. */
  function ExtractorName(info: Info): (r: Option<string>)
    ensures Truthy(info.extractor) ==> r == info.extractor
    ensures !Truthy(info.extractor) && Truthy(info.extractorKey) ==> r == info.extractorKey
    ensures !Truthy(info.extractor) && !Truthy(info.extractorKey) ==> r == info.ieKey
  {
    OrElse(OrElse(info.extractor, info.extractorKey), info.ieKey)
  }

  /** The extractor that claimed the URL is the generic page one. */
  predicate IsGeneric(info: Info) {
    var name := ExtractorName(info);
    Truthy(name) && Contains(Lower(name.value), "generic")
  }

  predicate HasMedia(info: Info) {
    info.formats > 0 || info.entries > 0
  }

  /** `is_supported_by_ytdlp`: the verdict and the info that came with it. */
  function IsSupported(probe: ProbeResult): (r: (bool, Option<Info>))
    ensures probe.ProbeRaised? ==> r == (false, None)
    ensures probe.ProbeInfo? ==> r.1 == Some(probe.info)
    ensures r.0 ==> probe.ProbeInfo? && HasMedia(probe.info) && !IsGeneric(probe.info)
    ensures probe.ProbeInfo? && HasMedia(probe.info) && !IsGeneric(probe.info) ==> r.0
  {
    match probe
    case ProbeRaised => (false, None)
    case ProbeInfo(info) =>
      if IsGeneric(info) then (false, Some(info))
      else if HasMedia(info) then (true, Some(info))
      else (false, Some(info))
  }

  /** A generic match is never support, however many formats it lists, and
      whatever casing the extractor name uses. */
  lemma GenericIsNeverSupported(info: Info, name: string)
    requires info.extractor == Some(name) && Contains(Lower(name), "generic")
    ensures !IsSupported(ProbeInfo(info)).0
  {
  }

  /** An empty extractor name falls through to the extractor key. */
  lemma EmptyExtractorFallsThrough(info: Info)
    requires info.extractor == Some("") && info.extractorKey == Some("Generic") && info.formats > 0
    ensures IsSupported(ProbeInfo(info)) == (false, Some(info))
  {
    assert Lower("Generic") == "generic";
    ContainsAt(Lower("Generic"), "generic", 0);
  }

  const DefaultFormat: string := "bestvideo+bestaudio/best"

  /** The format selector: the menu's answer when the session is interactive
      and the info lists formats, the default selector otherwise. `menu` is
      what the interactive menu returned (`None` when the chosen format has
      no id). */
  function ChooseFormat(info: Option<Info>, batchMode: bool, menu: Option<string>): (fmt: Option<string>)
    ensures batchMode ==> fmt == Some(DefaultFormat)
    ensures info.None? || info.value.formats == 0 ==> fmt == Some(DefaultFormat)
    ensures fmt != Some(DefaultFormat) ==> fmt == menu
    ensures info.Some? && info.value.formats > 0 && !batchMode ==> fmt == menu
  {
    if info.Some? && info.value.formats > 0 && !batchMode then menu else Some(DefaultFormat)
  }

  /** `user_chosen_format`. */
  predicate UserChoseFormat(fmt: Option<string>, batchMode: bool) {
    Truthy(fmt) && fmt.value != DefaultFormat && !batchMode
  }

  datatype OverwriteFlags = OverwriteFlags(overwrites: bool, nooverwrites: bool)

  /** The `overwrites` / `nooverwrites` pair for a download attempt. */
  function Flags(forceOverwrite: bool, fmt: Option<string>, batchMode: bool): (f: OverwriteFlags)
    ensures f.nooverwrites == !f.overwrites
    ensures f.overwrites <==> forceOverwrite || UserChoseFormat(fmt, batchMode)
  {
    var chosen := UserChoseFormat(fmt, batchMode);
    OverwriteFlags(forceOverwrite || chosen, !forceOverwrite && !chosen)
  }

  /** In batch mode, and whenever the menu answers with the default, existing
      files are overwritten only under the force flag. */
  lemma OverwriteOnlyByChoiceOrForce(forceOverwrite: bool, info: Option<Info>, batchMode: bool, menu: Option<string>)
    requires batchMode || menu == Some(DefaultFormat) || !Truthy(menu)
    ensures Flags(forceOverwrite, ChooseFormat(info, batchMode, menu), batchMode).overwrites == forceOverwrite
  {
  }

  /** An interactive pick of a non-default format always allows overwriting. */
  lemma PickedFormatOverwrites(forceOverwrite: bool, info: Info, menu: string)
    requires info.formats > 0 && menu != "" && menu != DefaultFormat
    ensures Flags(forceOverwrite, ChooseFormat(Some(info), false, Some(menu)), false) == OverwriteFlags(true, false)
  {
  }
}

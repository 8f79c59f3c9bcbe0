# Universal Media Downloader — decision core in Dafny

This project models the decision logic of `Universal-Media-Downloader.py`, a
script that takes URLs and saves the media behind them. It does not model the
downloading itself. The network, the extraction backend (yt-dlp), ffprobe and
the file system are replaced by explicit inputs:

- **File system.** A listing of entries, each with a path, `is_file`, a size,
  an mtime and the bytes of the file.
- **Probe result.** What the backend probe returns, or that it raised.
- **Attempt oracle.** One entry per player-client variant. It says whether
  the download raised, and with which message, or what it returned. For a
  return it also gives the predicted file name, the file system afterwards,
  the clock, and whether the rename and the move succeed.

Modules, in dependency order:

| file | module | what it models |
|---|---|---|
| common.dfy | `Common` | `Option`, truthiness, substring tests, ASCII `lower`/`strip`/`split` |
| paths.dfy | `Paths` | `pathlib` names: suffix, stem, `with_name`, `with_suffix`, and `unique_path` |
| filesystem.dfy | `Fs` | the file system, `exists`, reading a file, rename/move |
| names.dfy | `Names` | `safe_filename_from_url` |
| timefmt.dfy | `TimeFormat` | `fmt_hms` and a parser for its output |
| sniff.dfy | `Sniff` | `detect_container_ext` |
| dedup.dfy | `Dedup` | `uniq` from the page scan |
| backend.dfy | `Backend` | the info record, `is_supported_by_ytdlp`, the format choice and the overwrite flags |
| routing.dfy | `Routing` | how `handle_url` routes a URL; the direct-media test; routing of discovered links |
| ordering.dfy | `Ordering` | the `(mtime, path)` order and the descending sort of candidates |
| resolver.dfy | `Resolver` | the output resolver after a download returns |
| placement.dfy | `Placement` | the extension fix and the move into `VIDEOS_DIR` |
| summary.dfy | `Summary` | the once-per-path guard of `print_and_log_summary` |
| escalation.dfy | `Escalation` | the seven-variant loop of `download_video_with_yt_dlp`, its error classification, and the function's entry |

Two behaviours of the output resolver are worth knowing before reading the
resolver's contracts:

- **Match order.** The recency scan walks the candidates newest first and
  takes the first whose name holds *either* the media id or the title's first
  word (Universal-Media-Downloader.py:800-806). A newer file named after the
  title therefore beats an older one named after the id
  (`Resolver.TitleTokenCanOutrankId`).
- **Fallback.** When no candidate matches, the newest candidate is taken
  (Universal-Media-Downloader.py:807-808). The scan gives no file only when
  there is no candidate, or when a non-empty all-blank title makes
  `split()[0]` raise before the newest candidate has matched the id
  (`Resolver.PickRecent`, `Resolver.PickIsNewestMatch`).

## Model

| member | source | states |
|---|---|---|
| Names.SafeFilename | Universal-Media-Downloader.py:112-116 | The name is never empty and holds none of `< > : " / \ \| ? *`. It is `file` when the basename is empty. Otherwise it has the basename's length, keeps every allowed character in place and has `_` wherever the basename has a forbidden character. |
| Names.SanitiseFixesExactlyClean | Universal-Media-Downloader.py:115 | The substitution leaves a name unchanged if and only if the name has no forbidden character. |
| Names.SanitiseIdempotent | Universal-Media-Downloader.py:115 | Sanitising twice gives the same result as sanitising once. |
| Names.SafeFilenameIgnoresDirectories | Universal-Media-Downloader.py:113-114 | Only the path segment after the last separator decides the name. |
| Paths.UniquePath | Universal-Media-Downloader.py:118-124 | A free path is returned unchanged. A taken path gives a different path in the same directory, `1 + \|ts\|` characters longer, that starts with the old stem and ends with the old suffix. |
| Paths.UniquePathKeepsSuffix | Universal-Media-Downloader.py:121-124 | If the name does not end in a dot and the stamp is a `%Y%m%d_%H%M%S` string, the stamped name has the old name's suffix (none when it had none) and its stem is `stem_ts`. |
| Paths.UniquePathTrailingDot | Universal-Media-Downloader.py:121-124 | A name ending in a dot has no suffix, so `a.` is stamped to `a._ts`, whose suffix is `._ts`. |
| Paths.UniquePathMayCollide | Universal-Media-Downloader.py:118-124 | The stamped name is not checked: when it is also taken, `unique_path` returns a taken path. |
| TimeFormat.FmtHms | Universal-Media-Downloader.py:132-140 | `None` renders as `Unknown`. Under an hour the result is `MM:SS`; otherwise it is `H:MM:SS`. |
| TimeFormat.FmtHmsRoundTrip | Universal-Media-Downloader.py:132-140 | For every whole number of seconds, negative ones included, parsing the rendering gives the number back. |
| TimeFormat.FmtHmsFields | Universal-Media-Downloader.py:136-140 | The last two fields of every rendering are two digits below 60: the minutes and the seconds left over after the whole hours. |
| TimeFormat.ParseHmsCanonical | Universal-Media-Downloader.py:136-140 | Whatever the parser accepts is the rendering of the value it reads. A field of 60 or more, a one-digit field, or a zero or zero-padded hour is not a rendering, so each duration has exactly one. |
| TimeFormat.UnknownIsNotADuration | Universal-Media-Downloader.py:133-134 | `Unknown` never parses as a duration. |
| Sniff.DetectContainerExt | Universal-Media-Downloader.py:202-219 | An unreadable file gets no extension. A readable one gets the first extension, in the order mp4, webm, mp3, wav, mkv, whose signature is in its first 64 bytes, or none when no signature is there. |
| Sniff.FirstSignatureWins | Universal-Media-Downloader.py:207-217 | If a signature is present and no earlier one is, its extension is the verdict. |
| Sniff.SignatureRoundTrip | Universal-Media-Downloader.py:202-219 | A 64-byte sample header that starts with an extension's signature and is otherwise zero is sniffed as that extension, whatever follows it. A header carrying a higher-priority signature elsewhere, such as `ID3` followed by `ftyp`, is not covered; `Sniff.FirstSignatureWins` decides those. |
| Sniff.EbmlShadowsMatroska | Universal-Media-Downloader.py:209-217 | A file starting with the EBML magic is named `.webm`, even when it is Matroska. |
| Sniff.FtypPastHeaderIgnored | Universal-Media-Downloader.py:205-207 | An `ftyp` beyond the first 64 bytes is not seen. |
| Dedup.Uniq | Universal-Media-Downloader.py:596-603 | The output holds each non-empty input element exactly once, in order of first occurrence. It has no empty string and nothing that is not in the input. |
| Dedup.KeepFirstOrder | Universal-Media-Downloader.py:596-603 | The kept elements appear in the order of their first occurrence in the input. |
| Dedup.KeepFirstIdempotent | Universal-Media-Downloader.py:596-603 | De-duplicating twice gives the same result as de-duplicating once. |
| Dedup.KeepFirstOfDistinct | Universal-Media-Downloader.py:596-603 | A list with no blanks and no repeats is returned unchanged. |
| Backend.ExtractorName | Universal-Media-Downloader.py:633 | The extractor name is the first truthy one of `extractor`, `extractor_key` and `ie_key`. |
| Backend.IsSupported | Universal-Media-Downloader.py:626-641 | A probe that raises gives `(False, None)`. Otherwise the verdict is true if and only if there are formats or entries and the extractor is not generic, and the info is returned either way. |
| Backend.GenericIsNeverSupported | Universal-Media-Downloader.py:634-635 | A generic extractor, in any letter case, is unsupported however many formats it lists. |
| Backend.EmptyExtractorFallsThrough | Universal-Media-Downloader.py:633-635 | An empty `extractor` falls through to `extractor_key`. |
| Backend.ChooseFormat | Universal-Media-Downloader.py:686-690 | Batch mode, a missing info or an info without formats gives the default selector. An interactive run whose info lists formats uses the menu's answer. |
| Backend.Flags | Universal-Media-Downloader.py:692-712 | `nooverwrites` is always the negation of `overwrites`. `overwrites` holds if and only if force is on or the user picked a non-default format outside batch mode. |
| Backend.OverwriteOnlyByChoiceOrForce | Universal-Media-Downloader.py:686-692 | In batch mode, or when the menu answers with the default or nothing, existing files are overwritten only under force. |
| Backend.PickedFormatOverwrites | Universal-Media-Downloader.py:686-692 | An interactive pick of a non-default format always allows overwriting. |
| Routing.RouteUrl | Universal-Media-Downloader.py:941-968 | A blank URL does nothing. An image extension after the query is cut goes to the image download, if and only if that download does not raise. Otherwise an `image/` content type goes to a second image download, if and only if that one does not raise. Otherwise the probe decides between the backend and the page scan. |
| Routing.ImageRetriedByContentType | Universal-Media-Downloader.py:949-961 | An image URL whose first download raises is downloaded again when the HEAD request reports an image content type. |
| Routing.ImageExtensionSkipsProbes | Universal-Media-Downloader.py:946-952 | An image URL goes to the image download whatever the HEAD request or the probe would say. |
| Routing.HeadFailureFallsToProbe | Universal-Media-Downloader.py:956-968 | A failed HEAD request is swallowed and the probe decides. |
| Routing.QueryIgnoredForImages | Universal-Media-Downloader.py:946-949 | A query string neither hides nor fakes an image extension. |
| Routing.DiscoveredVideoRoute | Universal-Media-Downloader.py:992-1014 | A discovered link is streamed if and only if its path ends in a video extension and the stream succeeds. An HLS link goes to the backend unprobed. Other links go to the backend when supported, and to the stream otherwise. |
| Routing.QueryCutForDiscoveredLinks | Universal-Media-Downloader.py:995-1001 | A discovered link whose path ends in `.mp4` is streamed whatever query string follows it. |
| Routing.QueryHidesDirectMedia | Universal-Media-Downloader.py:667-669 | The direct-media shortcut does not cut the query, so `a.mp4?t=1` is not direct media. |
| Routing.QueryStrippingDiffers | Universal-Media-Downloader.py:995-997 | The direct-media test does not cut the query, while the discovered-link routing does, so `a.mp4?t=1` is direct media for one and not for the other. |
| Ordering.SortDesc | Universal-Media-Downloader.py:795 | The result is sorted newest first by `(mtime, path)` and is a permutation of the input. |
| Ordering.NotOlderTransitive | Universal-Media-Downloader.py:795 | The order the candidates are sorted by is transitive. |
| Ordering.NotOlderTotal | Universal-Media-Downloader.py:795 | Any two entries are comparable. |
| Resolver.Candidates | Universal-Media-Downloader.py:783-793 | An entry is a candidate if and only if it is in the output directory, is a regular file of at least 512 bytes and has an mtime no earlier than 900 seconds before now. |
| Resolver.Scan | Universal-Media-Downloader.py:800-806 | The chosen index is the first candidate whose name holds the id or the title's first word. "No match" means no candidate matches. The scan raises if and only if the title is all blank and the first candidate does not hold the id. |
| Resolver.PickRecent | Universal-Media-Downloader.py:794-812 | A pick is a qualifying candidate. No candidate gives no file. With at least one candidate, there is no file if and only if the title raises and the newest candidate does not hold the id. |
| Resolver.PickIsNewestMatch | Universal-Media-Downloader.py:795-809 | The pick is the newest matching candidate, or the newest candidate when none matches. |
| Resolver.NewestIsUnique | Universal-Media-Downloader.py:795 | In a listing without repeated paths there are no ties, so the newest entry is unique. |
| Resolver.TitleTokenCanOutrankId | Universal-Media-Downloader.py:800-806 | Given two fresh candidates, a newer file whose name starts with the title's first word is picked over an older one whose name holds the id. |
| Resolver.FromPrediction | Universal-Media-Downloader.py:761-777 | The predicted file is used if it exists, else its `.mp4` sibling if that exists. Whatever is returned exists. |
| Resolver.ResolveOutput | Universal-Media-Downloader.py:761-812 | The result exists. The predicted name, or its sibling, takes precedence. Otherwise the result is the recency scan's pick, with the id and title taken from the download's info when truthy and from the probe's info otherwise. There is no file when there are no candidates. |
| Resolver.ResolveOutputFallback | Universal-Media-Downloader.py:781-808 | Without a usable predicted name, the resolved file is the newest candidate matching that id or title, or the newest candidate when none matches. |
| Placement.FixExtension | Universal-Media-Downloader.py:814-826 | The file is renamed only when it has no suffix, the sniffing finds an extension and the rename succeeds. The new name is `name+ext`, or, when `name+ext` is taken and force is off, exactly what `unique_path` gives for `name+ext`, which is a different name. The file keeps its contents and directory. |
| Placement.FixedFileHasSuffix | Universal-Media-Downloader.py:816-824 | After a rename the file's suffix is the sniffed extension, even when the name was stamped. |
| Placement.FixExtensionOnce | Universal-Media-Downloader.py:816-826 | A renamed file is never renamed again, whatever the second pass's oracle says. |
| Placement.PlaceInVideos | Universal-Media-Downloader.py:827-836 | A file whose directory string holds `VIDEOS_DIR`, or whose move fails, stays where it is. Any other file moves to `VIDEOS_DIR` with its contents, under its own name when that is free or force is on, and otherwise under the name `unique_path` gives for it. |
| Placement.PlacedKeepsSuffix | Universal-Media-Downloader.py:827-836 | A file whose suffix is an extension keeps that suffix when it is moved, even when the name in `VIDEOS_DIR` is stamped. |
| Placement.PlaceInVideosOnce | Universal-Media-Downloader.py:829 | A moved file is not moved again. |
| Placement.PlacementKeepsOtherFiles | Universal-Media-Downloader.py:830-833 | With force off, when the name the move settles on was free, no other file is changed. |
| Placement.SiblingDirectoryNotMoved | Universal-Media-Downloader.py:829 | A file in `…\video downloads old` is taken to be in `VIDEOS_DIR` and is not moved. |
| Placement.PlacementMayOverwrite | Universal-Media-Downloader.py:830-833 | When both the name and its stamped variant are taken, the move replaces the file at the stamped name. |
| Summary.SourceUrl | Universal-Media-Downloader.py:311 | A truthy `source_url` is used; otherwise the info's `webpage_url`, or nothing. |
| Summary.Report | Universal-Media-Downloader.py:256-315 | A reported path or a missing file leaves the state unchanged. Otherwise exactly one entry, with the file's size, is appended and the path is recorded. The log is append-only and consistency is kept. |
| Summary.ReportIdempotent | Universal-Media-Downloader.py:262-263 | Repeating a report emits nothing. |
| Summary.MissingFileStaysReportable | Universal-Media-Downloader.py:264-266 | A missing file is not recorded, so it still emits once it exists. |
| Summary.ReportAll | Universal-Media-Downloader.py:256-315 | Over a session of calls the log only grows and the guard stays consistent. |
| Summary.SessionLogsEachPathOnce | Universal-Media-Downloader.py:262-315 | From an empty guard, every path appears in the log at most once, and the recorded keys are exactly the logged paths. |
| Summary.ExistingFileGetsReported | Universal-Media-Downloader.py:262-315 | A path whose file exists at some call ends up recorded. |
| Escalation.Classify | Universal-Media-Downloader.py:849-857 | A message is a player-response error if and only if its lower-cased text holds one of the three patterns. It is a transport error if and only if it holds none of those and one of the four transport patterns. |
| Escalation.PlayerResponseBeatsTransport | Universal-Media-Downloader.py:850-855 | A message that mentions both `sabr` and a time-out moves on to the next variant. |
| Escalation.ReadTimedOutSubsumed | Universal-Media-Downloader.py:855 | Any message that holds `read timed out` also holds `timed out`. |
| Escalation.Finish | Universal-Media-Downloader.py:761-841 | A returned attempt yields no file exactly when the resolver finds none. Otherwise the file exists, keeps the contents of the resolved file, and lies in `VIDEOS_DIR` when the move succeeds. When the rename succeeds on a non-empty name without a suffix whose contents are sniffed, the final suffix is the sniffed extension. When neither the rename nor the move applies, the file and the file system are unchanged. The summary is the report of the final path, with the URL as source. |
| Escalation.TryVariants | Universal-Media-Downloader.py:730-870 | Variants are tried in list order, default first, at most seven times. Every attempt before the last moves on. The loop ends with the first attempt that produces a file (returned), the first transport error (re-raised), or after all seven (nothing). |
| Escalation.Escalate | Universal-Media-Downloader.py:730-870 | The outcome is the reference `Run` over the attempts. A success is a returned attempt whose file exists and is recorded. A re-raise is a raised attempt whose message is a transport error. |
| Escalation.DownloadVideo | Universal-Media-Downloader.py:661-870 | A direct media URL whose stream succeeds returns that file after reporting it. Otherwise the caller's info, or a fresh probe's, is used and the variants are tried. |
| Escalation.ProbedInfo | Universal-Media-Downloader.py:676-683 | The caller's info is used when given. Otherwise the probe's info is used, or nothing when the probe raises. |
| Escalation.TransportStopsAtOnce | Universal-Media-Downloader.py:855-857 | A `Read timed out` on the first attempt re-raises at once. |
| Escalation.AllAdvanceExhausts | Universal-Media-Downloader.py:741-870 | If every remaining attempt moves on, the loop gives up. |
| Escalation.NoFileAdvances | Universal-Media-Downloader.py:782-845 | An attempt that returns normally but leaves no candidate moves on. |

## Left out

- HTTP through `requests`, including the HEAD request, the streaming downloads, retries and progress output. These are network I/O. Their results enter the model as inputs: `Routing.HeadResult`, `Routing.RouteUrl`'s `extImageRaises` and `headImageRaises`, and the `direct` argument of `Escalation.DownloadVideo`.
- The backend's `extract_info` and `prepare_filename`, and `create_verbose_log`. These call a foreign library and a subprocess. They are replaced by `Backend.ProbeResult` and the `Escalation.Attempt` oracle.
- The HTML scraping around `uniq`. It depends on an HTML parser and regular expressions the model does not have.
- ffprobe, curl and Pillow. These are external tools.
- `fmt_size`, the MB and speed figures, and the `round()` of a float in `fmt_hms`. These are floating point; `TimeFormat.FmtHms` takes whole seconds.
- `progress_hook`, the elapsed-time bookkeeping, the sleeps between variants and the random user agent. These depend on clocks and randomness and decide nothing.
- The interactive menus, the cookie-file lookup, input loading and `main`. These are user interface and command-line glue; the menu's answer is a parameter of `Backend.ChooseFormat`.
- Writing the JSONL and text summary files. Their errors are swallowed, so only the guard's state is modelled.
- `urlparse`. `Names.SafeFilename` takes the URL's path component directly.
- Case mapping and whitespace. `lower`, `strip` and `split` act on ASCII only; other Unicode letters and spaces are not mapped.
- `Path.resolve()` in the summary guard is taken to be the identity. Paths are compared as given.
- Resolver.Candidates: times are whole nanoseconds, not the floats that `st_mtime` and `time.time()` give. The rounding of those floats, at the 900-second boundary or between two close mtimes, is not modelled.
- Ordering.SortDesc: compares names case-sensitively. On Windows `pathlib` compares case-folded paths, so two names that differ only in case may tie-break the other way.
- `os.path.basename` is modelled with the Windows separators `/` and `\`. Drive letters and UNC prefixes are not split off.
- `shutil.move` into an existing directory, which would nest the file inside it, is not modelled. A move replaces the target as `os.replace` does. Whether a rename or move fails at all, including Windows' refusal to rename over an existing file, is an oracle input.
- Escalation.Finish: the promise about the final suffix holds for rename and move stamps of the `%Y%m%d_%H%M%S` shape that `unique_path` builds; other stamp strings are not covered.
- Escalation.Finish: assumes the summary routine does not raise. In the code an exception there would be classified like a backend error.
- Escalation.DownloadVideo: the format and overwrite flags it computes are modelled separately (`Backend.ChooseFormat`, `Backend.Flags`). They only reach the backend, whose behaviour is the attempt oracle, so they do not appear in the method.
- The page-scan fallback and curl fallback that `handle_url` runs after a failed backend download are not modelled beyond the route they start from.

# arxiv-research-copilot: configuration lookup and arXiv paper ingestion

This project is a Dafny model of two parts of arxiv-research-copilot's
ingestion side. It proves properties of both.

- **Configuration** (`src/utils/config.py`). `Config` holds the mapping loaded
  from the YAML file. `Config.get` walks a dot-separated key path through
  nested dicts. It falls back to the default as soon as it meets a non-dict,
  a missing key or a stored `None`. `Config.as_dict` copies the mapping.
- **Downloader** (`src/ingestion/downloader.py`). `ArXivDownloader` makes
  the arXiv search request and maps each search result to a `PaperMetadata`
  record. For a paper it also computes the target path
  `output_dir / (filename or "<arxiv_id>.pdf")`. The two download operations
  always raise `NotImplementedError`.

Modules:

- `Wrappers`: `Option` and `Result`.
- `PyStr`: Python's `str.split` and `str.join` on one separator character,
  and `split(sep)[-1]`.
- `Configuration`: YAML values, the lookup walk, and the `Config` class.
- `Paths`: the part of `pathlib.PurePosixPath` the downloader uses,
  construction from a string and the `/` operator.
- `IsoTime`: `datetime.isoformat()`, and a parser proved to be its left
  inverse: parsing what `isoformat()` wrote gives the timestamp back.
- `Downloader`: `PaperMetadata`, the arXiv result records, and the
  `ArXivDownloader` class.

Python's `x or y` is modelled as the code has it. `None` and 0 both fall back
to the instance's `max_results`. `None` and `""` both fall back to
`<arxiv_id>.pdf`.

The arXiv client's answer to the search request is an input of
`SearchPapers`. The method returns the request it built (query, effective
count, relevance order) together with the mapped papers.

The repository's own description of this pipeline asks for more than the
code does. It describes a query cache, category filtering, a pacer between
requests, skip-existing downloads, and a fault-tolerant batch fetcher. The
code leaves all of these as TODO comments: `search_papers` ignores
`categories`, and `download_pdf` and `batch_download` raise. Likewise,
`Config`'s docstring (`src/utils/config.py:25-26`) says environment
variables are merged in and take precedence over file values, but `get`
reads only the loaded mapping and never the environment. This model
follows the code.

## Model

| member | source | states |
|---|---|---|
| Configuration.Config.constructor | src/utils/config.py:37-48 | The configuration holds exactly the loaded mapping. |
| Configuration.Config.Get | src/utils/config.py:50-75 | The loop's answer is `Resolve(data, key, default)`, the segment-by-segment walk described by the lemmas below. |
| Configuration.Config.AsDict | src/utils/config.py:112-114 | The copy has the same keys as the stored mapping and the same value under each key. |
| Configuration.Step | src/utils/config.py:69-74 | One loop iteration: only a dict with the key present and not `None` lets the walk go on. Characterised by `DescendStopsAtGap` and `DescendNeverNull`. |
| Configuration.Descend | src/utils/config.py:66-75 | The walk over the segments taken from the left, as the loop does. Characterised by `DescendCons`, `DescendStaysStopped`, `DescendNeverNull` and `DescendStopsAtGap`. |
| Configuration.Resolve | src/utils/config.py:50-75 | The answer of `get`: the walk over `key.split(".")`, or `default` when the walk stops. Characterised by the `Resolve…` lemmas below, and `Config.Get` is proved equal to it. |
| Configuration.DescendCons | src/utils/config.py:66-75 | The walk over `[k] + ks` starts with one step on `k`, then walks `ks` from wherever that step reached. |
| Configuration.DescendStaysStopped | src/utils/config.py:68-74 | If the walk stops on a prefix of the segments, it stops on all of them (the early `return default`). |
| Configuration.DescendNeverNull | src/utils/config.py:73-74 | A walk over at least one segment never ends on a stored `None`. |
| Configuration.DescendStopsAtGap | src/utils/config.py:69-74 | Reaching a non-dict, a missing key or a `None` before some segment ends the walk. |
| Configuration.ResolveSingleSegment | src/utils/config.py:66-75 | A key without a dot gives `data[key]` when that key is present and not `None`, and `default` otherwise. |
| Configuration.ResolveMissingSegment | src/utils/config.py:69-74 | A segment missing from the dict reached so far makes `get` return `default`. |
| Configuration.ResolveNullSegment | src/utils/config.py:73-74 | A segment whose stored value is `None` makes `get` return `default`. |
| Configuration.ResolveNonDictIntermediate | src/utils/config.py:69-72 | Reaching a non-dict while segments remain makes `get` return `default`. |
| Configuration.ResolveFound | src/utils/config.py:75 | When the walk completes, `get` returns the stored value whatever the default, and that value is never `None`. Falsy values are returned too. |
| Configuration.ResolveNullOnlyAsDefault | src/utils/config.py:73-75 | `get` answers `None` only when `None` was the default. |
| Configuration.ResolveNullLikeAbsent | src/utils/config.py:70-74 | For every query, storing `None` under a top-level key answers the same as not storing the key. |
| Configuration.ResolveCompose | src/utils/config.py:66-75 | When `data[seg]` is a dict and `seg` has no dot, `get(seg + "." + rest)` equals the lookup of `rest` inside `data[seg]`. |
| Configuration.SplitExampleKey | src/utils/config.py:66 | `"a.b"` with dot-free parts splits into `[a, b]`. |
| Configuration.DescendExample | src/utils/config.py:60-64 | In the documented data, the walk over `["llm", t]` reaches 0.0 exactly when `t` is "temperature", and stops otherwise. |
| Configuration.ExampleTemperature | src/utils/config.py:61-62 | The documented call `get("llm.temperature")` returns 0.0. |
| Configuration.ExampleFallback | src/utils/config.py:63-64 | The documented call `get("llm.nonexistent", "fallback")` returns "fallback". |
| PyStr.Join | src/utils/config.py:66 | `sep.join(parts)`, the partner of `Split`: `SplitJoinsBack` and `SplitJoin` make them inverse on separator-free parts. |
| PyStr.LastSegment | src/ingestion/downloader.py:99 | `s.split(sep)[-1]`. Characterised by `LastSegmentIsMaximalSuffix`. |
| PyStr.Split | src/utils/config.py:66 | `split` always yields at least one segment. |
| PyStr.SplitJoinsBack | src/utils/config.py:66 | Joining the segments with the separator gives back the input. |
| PyStr.SplitSegmentsFree | src/utils/config.py:66 | No segment contains the separator. |
| PyStr.SplitJoin | src/utils/config.py:66 | Splitting the join of separator-free parts gives exactly those parts. Together with the two lemmas above, the segments are the only separator-free list that joins back to the input. |
| PyStr.SplitCount | src/utils/config.py:66 | There is one segment more than there are separators in the input. |
| PyStr.SplitWithoutSeparator | src/utils/config.py:66 | A string without the separator splits into itself alone. |
| PyStr.SplitKeepsEmptySegments | src/utils/config.py:66 | Empty segments are kept: `"a..b"` gives `["a", "", "b"]`. |
| PyStr.SplitAfterPlain | src/utils/config.py:66 | A separator-free prefix is glued onto the first segment of the rest. |
| PyStr.SplitPeel | src/utils/config.py:66 | `head + sep + tail` with a separator-free head splits into `head` followed by the segments of `tail`. |
| PyStr.JoinLast | src/ingestion/downloader.py:99 | The join of two or more parts ends with a separator followed by the last part. |
| PyStr.LastSegmentIsMaximalSuffix | src/ingestion/downloader.py:99 | `split(sep)[-1]` is a suffix of the input that has no separator. It is either the whole input or is preceded by a separator. |
| Downloader.ArxivId | src/ingestion/downloader.py:99 | The id is the longest slash-free suffix of the entry URL, and a slash-free entry is its own id. |
| Downloader.OldStyleIdsCollide | src/ingestion/downloader.py:99 | The entries `http://arxiv.org/abs/hep-th/9901001v1` and `http://arxiv.org/abs/math/9901001v1` both get the `arxiv_id` "9901001v1". |
| Downloader.ArxivIdAfterLastSlash | src/ingestion/downloader.py:99 | Whatever precedes the last slash is dropped, including an old-style archive prefix such as "hep-th/". |
| Downloader.EffectiveMax | src/ingestion/downloader.py:88 | An explicit non-zero count is used, negative ones included; `None` or 0 gives the instance default. |
| Downloader.FileName | src/ingestion/downloader.py:135 | A non-empty custom name is used as given; a missing or empty one gives `<arxiv_id>.pdf`. |
| Downloader.AuthorNames | src/ingestion/downloader.py:101 | `[author.name for author in result.authors]`. Its length and each name are fixed by `Describes`, proved of it in `ToMetadataDescribes`. |
| Downloader.ToMetadata | src/ingestion/downloader.py:98-106 | The `PaperMetadata(...)` built for one result. `ToMetadataDescribes` and `DescribesDetermines` show it is the one record with the field mapping, and `PublishedReadsBack` shows its `published` text loses nothing. |
| Downloader.ToMetadataDescribes | src/ingestion/downloader.py:97-107 | The record built in the loop has the field mapping of `search_papers`: id from the URL, author names in order, published in ISO form, the rest copied. |
| Downloader.DescribesDetermines | src/ingestion/downloader.py:98-106 | The field mapping fixes every field: a record with it is the one the loop builds. |
| Downloader.PublishedReadsBack | src/ingestion/downloader.py:104 | A paper's `published` text parses back to the client's timestamp, so no information is lost. |
| Downloader.ArXivDownloader.constructor | src/ingestion/downloader.py:54-62 | `output_dir` is `Path(output_dir)`, defaulting to "./data/raw", and `max_results` is stored as given, defaulting to 100. |
| Downloader.ArXivDownloader.SearchPapers | src/ingestion/downloader.py:64-110 | The request carries the query, `max_results or self.max_results` and relevance order. `categories` does not reach it. There is one paper per client result, in the client's order, each with the field mapping. |
| Downloader.ArXivDownloader.DownloadPdf | src/ingestion/downloader.py:112-140 | For every paper and name the result is `NotImplementedError("PDF download not yet implemented")`. |
| Downloader.ArXivDownloader.BatchDownload | src/ingestion/downloader.py:142-160 | For every list, the empty one included, the result is `NotImplementedError("Batch download not yet implemented")`. |
| Downloader.ArXivDownloader.DownloadTarget | src/ingestion/downloader.py:135-136 | `output_path = self.output_dir / fname`. Characterised by `DefaultTargetInOutputDir`, `SearchedPaperTarget`, `CustomNameTarget` and `AbsoluteNameTarget`. |
| Downloader.DefaultTargetInOutputDir | src/ingestion/downloader.py:135-136 | Without a usable custom name, a paper with a slash-free id targets `<arxiv_id>.pdf` directly inside the output directory. |
| Downloader.SearchedPaperTarget | src/ingestion/downloader.py:99-136 | Every searched paper's default target is `<arxiv_id>.pdf` directly inside the output directory. |
| Downloader.CustomNameTarget | src/ingestion/downloader.py:135-136 | A plain custom file name is placed directly inside the output directory. |
| Downloader.AbsoluteNameTarget | src/ingestion/downloader.py:135-136 | An absolute custom name replaces the output directory altogether. |
| Paths.KeepNames | src/ingestion/downloader.py:59 | Every kept part is a name (not empty, not ".", no slash), and a string is kept exactly when it is a name among the segments. |
| Paths.KeepNamesSingle | src/ingestion/downloader.py:59 | A single segment is kept exactly when it is a name. |
| Paths.KeepNamesConcat | src/ingestion/downloader.py:59 | Keeping names distributes over concatenation. With `KeepNamesSingle`, normalisation is the order-preserving filter of the names, repetitions included. |
| Paths.PathOf | src/ingestion/downloader.py:59 | `Path(s)` is absolute exactly when `s` starts with a slash, and every part is a name. |
| Paths.Div | src/ingestion/downloader.py:136 | pathlib's `/` operator. Characterised by `DivPlainName`, `DivRelativeExtends` and `DivAbsoluteReplaces`. |
| Paths.DivPlainName | src/ingestion/downloader.py:136 | `base / name` for a plain name appends that one part. |
| Paths.DivRelativeExtends | src/ingestion/downloader.py:136 | `base / name` for a relative name keeps base's root and starts with base's parts. This holds for the text only: ".." parts are kept as pathlib keeps them, so the file can lie outside base on disk. |
| Paths.DivAbsoluteReplaces | src/ingestion/downloader.py:136 | `base / name` for an absolute name is `Path(name)`. |
| Paths.DotRelativePath | src/ingestion/downloader.py:56-59 | `"./a/b"` for names `a` and `b` is the relative path `a/b`. |
| Paths.DefaultOutputDir | src/ingestion/downloader.py:56-59 | The default "./data/raw" is the relative path with parts "data" and "raw". |
| IsoTime.Digit | src/ingestion/downloader.py:104 | Each written digit is a decimal digit character. |
| IsoTime.DateAndTime | src/ingestion/downloader.py:104 | The date and time part has exactly 19 characters. |
| IsoTime.FractionPart | src/ingestion/downloader.py:104 | Microseconds take 7 characters when non-zero and none when zero. |
| IsoTime.OffsetPart | src/ingestion/downloader.py:104 | A UTC offset takes 6 characters; a naive timestamp has none. |
| IsoTime.OffsetRoundTrip | src/ingestion/downloader.py:104 | The `+HH:MM` text reads back as the offset. |
| IsoTime.FractionRoundTrip | src/ingestion/downloader.py:104 | The `.ffffff` text reads back as the microseconds. |
| IsoTime.DateFields | src/ingestion/downloader.py:104 | Year, month and day are at the fixed places, separated by "-". |
| IsoTime.TimeFields | src/ingestion/downloader.py:104 | Hour, minute and second are at the fixed places, after "T" and separated by ":". |
| IsoTime.HeadFields | src/ingestion/downloader.py:104 | The first 19 characters of `isoformat()` hold every date and time field, and are followed by the fraction and the offset. |
| IsoTime.IsoFormat | src/ingestion/downloader.py:104 | `result.published.isoformat()`. `ParseIsoFormat` gives it a left inverse, so `IsoFormatInjective` follows, and `HeadFields` and `IsoFormatLength` fix its layout. |
| IsoTime.ParseIsoFormat | src/ingestion/downloader.py:104 | Parsing what `isoformat()` wrote gives back the timestamp. |
| IsoTime.IsoFormatInjective | src/ingestion/downloader.py:104 | Distinct timestamps are written differently. |
| IsoTime.IsoFormatLength | src/ingestion/downloader.py:104 | The text has 19 characters, plus 7 for non-zero microseconds, plus 6 for an offset. |

## Left out

- Config loading is not modelled: `__init__` reading the file, `_load`, `reload`, the missing-file case and `yaml.safe_load(...) or {}`. These are file I/O, so the constructor takes the loaded mapping.
- A YAML document whose top level is not a mapping (a list or a scalar) is not modelled. `data` is always a mapping here.
- YAML keys that are not strings are not modelled. Floats are reals, with no NaN or infinities.
- The other values `yaml.safe_load` can build are not modelled: dates and timestamps, `!!binary` bytes and `!!set` sets. The walk treats them as leaves, as it treats scalars.
- `Config.get_env` and `Config.require_env` are not modelled: they read the process environment.
- Configuration.Config.AsDict: the result is a value, so the shallow-copy aliasing of Python's `dict(...)` (nested dicts shared with the stored mapping) is not captured.
- The `arxiv` library is not modelled: the `arxiv.Client()` object, its paging and its network errors (`arxiv.ArxivError`). The results the client yields for the request are an input of `SearchPapers`.
- Creating the output directory (`mkdir(parents=True, exist_ok=True)`) is not modelled; it is filesystem I/O. A `Path` argument for `output_dir` is covered by its string form.
- Logging calls (`logger.info`) are not modelled. They have no effect on results.
- The features that exist only as TODO comments have no code to model: category filtering, rate limiting, caching, pagination, the real HTTP download, checksums, retries, deduplication, progress bars and concurrent downloads.
- Paths.PathOf: only POSIX path semantics are modelled. On Windows, `Path` is `WindowsPath`, with drives, backslashes and case-insensitive parts.
- Paths.PathOf: pathlib's special case of exactly two leading slashes (`//host`) is not modelled.
- IsoTime.OffsetPart: only UTC offsets in whole minutes are modelled. `isoformat()` also writes seconds and microseconds of an offset when they are non-zero.
- IsoTime.ParseIso is only a left inverse of `isoformat()`. It also accepts some text `isoformat()` never writes, such as a `-00:00` offset or a minute field of 60 or more. It is not a model of `datetime.fromisoformat`.
- `src/ingestion/processor.py` (text extraction and chunking), `src/retrieval`, `src/generation`, `src/api`, `src/ui`, `src/utils/logger.py` and `scripts/` are not part of this model.

# mangacross-rss, modelled in Dafny

mangacross-rss turns the catalogue metadata of comics on the MangaCross site
into RSS feeds. A run takes a list of configured targets, which are comic
directory names. For each target it fetches
`{MANGACROSS_HOST}/api/comics/{target}.json?type=public` and decodes the comic
record. It builds one RSS channel per comic. That channel holds one item per
episode whose status is exactly `"public"`, and each item's enclosure is
filled in from a GET of the episode's list image. The channel is written to
`<output>/<target>/feed.xml`. Targets run independently and the whole run
succeeds only when every target does. Building one channel, though, fails as
soon as any one of its public episodes fails.

This project models that core, `crates/mangacross-rss/src/lib.rs`, as pure
functions over datatypes, with lemmas:

- `Feed` is the RSS document: `Channel`, `Image`, `Item`, `Guid`, `Enclosure`.
- `MangaCross` is the decoded record: `Comic`, `Episode`, `IsPublic`.
- `Http` holds what an item reads from the image response:
  - `HeaderToStr` follows `HeaderValue::to_str`, which accepts only visible ASCII and tab;
  - `Decimal` is `u64::to_string`, and `DigitsValue` is its inverse.
- `Combinators.TryJoinAll` and `Combinators.AllOk` are `try_join_all` and `iter().all`. Results are kept in input order.
- `Transform` holds `episode_to_item` and `comic_to_channel`.
- `Paths` holds the metadata URL and `Path::join` with its Unix rules.
- `Pipeline` holds one target's task (`RunTarget`), the run (`BuildRss`), and the files a run leaves (`ApplyReports`).

`MANGACROSS_HOST` is defined in a module that is not part of this model. It
appears as a `host` parameter, so every lemma holds for every host. The
network, JSON decoding, RSS rendering and the filesystem are inputs:

- `TargetIo` gives one target's metadata body, its image probes and whether each filesystem call succeeds;
- `probe(i)` is the outcome of the image GET of episode `i`;
- whether the last buffer handed over by `write_all` reaches the file is a separate input, because the tokio `File` is never flushed;
- `decode` stands for `serde_json::from_str`;
- `render` stands for `Channel::to_string`.

## Model

| member | source | states |
|---|---|---|
| `Http.HeaderToStr` | crates/mangacross-rss/src/lib.rs:116-119 | the Content-Type text is accepted exactly when every byte is visible ASCII or tab; otherwise the error is `HeaderNotStr`; accepted text is visible ASCII |
| `Http.HeaderTextRoundTrip` | crates/mangacross-rss/src/lib.rs:116-119 | reading the bytes of a visible-ASCII text as a header gives that text back |
| `Http.HeaderBytesOfText` | crates/mangacross-rss/src/lib.rs:116-119 | an accepted header value is exactly the bytes of the text it yields |
| `Http.Decimal` | crates/mangacross-rss/src/lib.rs:120-123 | the rendering of a content length is a non-empty digit string with no leading zero, except for zero itself |
| `Http.DecimalRoundTrip` | crates/mangacross-rss/src/lib.rs:120-123 | parsing the rendering of `n` gives `n` |
| `Http.CanonicalDecimalRoundTrip` | crates/mangacross-rss/src/lib.rs:120-123 | every canonical digit string is the rendering of its value |
| `Http.DecimalInjective` | crates/mangacross-rss/src/lib.rs:120-123 | different lengths render as different strings |
| `Transform.MimeType` | crates/mangacross-rss/src/lib.rs:116-119 | a missing Content-Type gives `""`; an accepted one is visible ASCII text; the only failure is `HeaderNotStr`, and only when the header is present |
| `Transform.LengthText` | crates/mangacross-rss/src/lib.rs:120-123 | the enclosure length is `""` exactly when there is no content length; otherwise it is canonical decimal text worth exactly the length |
| `Transform.EpisodeToItem` | crates/mangacross-rss/src/lib.rs:100-139 | an item is built iff the image GET succeeded and the mime type is readable; otherwise the error is `Network` for the GET and `HeaderNotStr` for the header; the guid is the item's link marked as permalink; the enclosure url is the double list image; the author is the comic's |
| `Transform.EpisodeToItemSpec` | crates/mangacross-rss/src/lib.rs:100-139 | an item is built iff the image GET succeeded and any Content-Type is visible ASCII; a failed GET gives `Network` and a bad header `HeaderNotStr`; title is the volume and the episode title joined by a vertical bar with a space on each side; the link is host + page URL, with the page URL recoverable from it; guid = link with permalink; author = comic author; pub date = publish start; enclosure url = double list image; mime `""` without the header, else the header's text; length `""` without a length, else its decimal |
| `Transform.PublicIndices` | crates/mangacross-rss/src/lib.rs:86-89 | lists, strictly increasing and no more than the episodes, exactly the positions of episodes whose status is `"public"` |
| `Transform.PublicIndicesCount` | crates/mangacross-rss/src/lib.rs:86-89 | there are as many such positions as there are public episodes |
| `Combinators.TryJoinAll` | crates/mangacross-rss/src/lib.rs:85-92 | succeeds iff every task does; then the results are in input order, one per task; else the error is that of the first failing task |
| `Combinators.TryJoinAllCongruent` | crates/mangacross-rss/src/lib.rs:85-92 | the joined result depends only on what each task yields |
| `Transform.ComicToChannel` | crates/mangacross-rss/src/lib.rs:64-97 | a built channel has one item per public position, never more than the episodes, with the comic's title and caption; a failure is `Network` or `HeaderNotStr`, coming from an item |
| `Transform.ChannelSucceedsIffPublicItemsSucceed` | crates/mangacross-rss/src/lib.rs:85-92 | a channel is built iff every public episode's item is built; non-public episodes play no part |
| `Transform.ChannelFailureIsFirstFailingItem` | crates/mangacross-rss/src/lib.rs:85-92 | a failed channel carries the error of a public episode whose item fails, with every earlier public episode succeeding |
| `Transform.ChannelItemsFollowPublicEpisodes` | crates/mangacross-rss/src/lib.rs:85-93 | the channel has one item per public episode; item k is the item of the k-th public episode, in source order |
| `Transform.ChannelFields` | crates/mangacross-rss/src/lib.rs:66-83 | channel title = comic title; the link is `host/comics/<dir_name>/`, with `dir_name` recoverable from it; description = caption for search; image url = image link = image URL; image title = title + " " + author; pub date = last build date = latest episode publish start; every item's author is the comic's author |
| `Transform.NonPublicProbesIrrelevant` | crates/mangacross-rss/src/lib.rs:85-92 | image probes of non-public episodes cannot change the channel or its error |
| `Transform.NoPublicEpisodesNoItems` | crates/mangacross-rss/src/lib.rs:85-93 | a comic with no public episode gets a channel with no items, whatever its probes do |
| `Paths.Join` | crates/mangacross-rss/src/lib.rs:36-40 | `Path::join` ends with the joined path; an absolute path replaces the base; a relative one extends the base |
| `Paths.MetadataUrl` | crates/mangacross-rss/src/lib.rs:26 | the metadata URL is `host/api/comics/<target>.json?type=public`, and the target can be read back from it |
| `Paths.OutputDir` | crates/mangacross-rss/src/lib.rs:36 | a relative target's directory is the target below the root (with a separator added only when the root is non-empty and lacks one); an absolute target replaces the root |
| `Paths.FeedPath` | crates/mangacross-rss/src/lib.rs:36-40 | for a plain target (one directory entry name: non-empty, no `/`, not `.` or `..`) and any root, the file is `feed.xml` in that entry below the root, and the target can be read back from it |
| `Paths.FeedPathLayout` | crates/mangacross-rss/src/lib.rs:36-42 | for a root without a trailing `/` and a plain target, the feed is written to `<output>/<target>/feed.xml` |
| `Paths.FeedPathsDistinct` | crates/mangacross-rss/src/lib.rs:36-42 | under any root, distinct plain targets get distinct feed paths, which name distinct entries of one directory |
| `Paths.TrailingSeparatorSharesFeed` | crates/mangacross-rss/src/lib.rs:36-40 | for a plain target `t`, under any root, `t` and `t/` give the same feed path |
| `Paths.AbsoluteTargetIgnoresOutput` | crates/mangacross-rss/src/lib.rs:36-40 | an absolute target's feed path does not depend on the output root |
| `Paths.EmptyTargetWritesIntoRoot` | crates/mangacross-rss/src/lib.rs:36-40 | the empty target writes `feed.xml` directly into the output root |
| `Pipeline.FetchAndBuild` | crates/mangacross-rss/src/lib.rs:27-33 | a failed GET gives `Network`; a body that does not decode gives `Decode`; a decoded comic gives exactly its `ComicToChannel` result, success or error. So it succeeds iff the body was fetched, decoded and built into a channel, and a failure is `Network`, `Decode` or `HeaderNotStr`, never a filesystem error |
| `Pipeline.RunTarget` | crates/mangacross-rss/src/lib.rs:24-45 | the fetched URL names the target; the target succeeds iff fetch, decode, channel build, `create_dir_all`, `File::create` and `write_all` all return `Ok`; its feed is on disk iff, besides, the last buffer lands; an earlier failure's error is kept, and a filesystem failure is `Io`; no file is touched unless the channel was built and the file created, and then only `FeedPath(output, target)`; once the file is created, a failed `write_all` or a last buffer that does not land leaves it truncated; a written file holds the rendered channel |
| `Pipeline.BuildRss` | crates/mangacross-rss/src/lib.rs:22-60 | one report per configured target, in order and with duplicates kept; report i depends only on target i and its own inputs; the run succeeds iff every report does, and otherwise fails with `BuildFailed` |
| `Combinators.AllOk` | crates/mangacross-rss/src/lib.rs:56 | true iff every outcome is `Ok` |
| `Pipeline.ApplyReports` | crates/mangacross-rss/src/lib.rs:42-43 | applying a run's file effects in target order never removes a file |
| `Pipeline.ApplyIsOverride` | crates/mangacross-rss/src/lib.rs:42-43 | the disk after a run is the old disk with the touched files replaced; the last write of a path wins |
| `Pipeline.RerunIsIdempotent` | crates/mangacross-rss/src/lib.rs:42-43 | replaying a run's file effects on its own result changes nothing |
| `Pipeline.UntouchedNotAssigned` | crates/mangacross-rss/src/lib.rs:36-43 | a path no target wrote or truncated is not reassigned by the run |
| `Pipeline.LastEffectWins` | crates/mangacross-rss/src/lib.rs:42-43 | a file's final content comes from the last target that touched it |
| `Pipeline.OtherTargetsMissPath` | crates/mangacross-rss/src/lib.rs:22-43 | with distinct plain targets, no other target's task touches a target's feed file |
| `Pipeline.FeedFileAfterRun` | crates/mangacross-rss/src/lib.rs:22-48 | for one target among distinct plain targets, its feed file after the run is its own report's file content, or its previous content when it created no file |
| `Pipeline.RunOutputs` | crates/mangacross-rss/src/lib.rs:22-48 | for distinct plain targets under any root, each target's feed file ends up as its own report says, whatever the others do: its feed when written; empty when the file was created but its content did not all land; unchanged when the target failed earlier |
| `Pipeline.SucceededTargetFeed` | crates/mangacross-rss/src/lib.rs:26-43 | a target whose steps all return `Ok` was fetched and decoded, and its channel was built with one item per public episode; its feed file holds that channel's rendering, or is left truncated when the last buffer does not land |
| `Pipeline.SucceededTargetAfterRun` | crates/mangacross-rss/src/lib.rs:22-60 | a target whose steps all succeed has a decoded comic and a built channel with one item per public episode, and its `FeedPath` holds the rendered channel, or is empty when its last buffer did not land |
| `Pipeline.SuccessfulRunWritesEveryFeed` | crates/mangacross-rss/src/lib.rs:22-60 | after a successful run over distinct plain targets under any root, each target's `FeedPath` holds its rendered channel with one item per public episode, or is empty when its last buffer did not land; for a root without a trailing `/` that path is `<output>/<target>/feed.xml` |
| `Pipeline.FailureIsIsolated` | crates/mangacross-rss/src/lib.rs:22-60 | under any root, one failing target fails the run with `BuildFailed`, while every other target whose own steps succeed and whose last buffer lands still has its feed on disk |

## Behaviour of the code worth knowing

- A failing target can still leave a file behind. `File::create` truncates
  `feed.xml` before `write_all` runs. So a failed write leaves a truncated
  file, which replaces the previous run's feed. The model records this as
  the `Truncated` file effect.
- `write_all` on a tokio `File` returns `Ok` when the last buffer has been
  handed to a background write. The code never flushes the file, so nobody
  hears if that last write fails. A target can then report `Ok` while its
  file is truncated or incomplete. The model makes this case explicit with
  `TargetIo.lastWriteLands`.
- `reqwest::get` fails on a URL it cannot parse and on transport errors,
  but not on an error status.
  For the metadata fetch, an error status shows up as a decode failure of
  its body. For an image, the item is still built from that response's
  headers. Both requests are inputs of the model, so this changes no
  definition.
- Distinct plain targets (not empty, no `/`, not `.` or `..`) never share
  a feed file (`Paths.FeedPathsDistinct`); two copies of one target do.
  Other targets can share one too:
  - for a plain target `t`, `t` and `t/` give the same path text (`Paths.TrailingSeparatorSharesFeed`);
  - `a` and `./a`, or `b` and `x/../b`, name one file through different texts;
  - the empty target writes straight into the root (`Paths.EmptyTargetWritesIntoRoot`);
  - an absolute target's feed path does not depend on the root at all (`Paths.AbsoluteTargetIgnoresOutput`).

## Left out

- HTTP (`reqwest::get`, `res.text()`, reading headers): network I/O. They are the inputs `TargetIo.response` and `TargetIo.probe`.
- JSON decoding into `MangaCrossComic`: a foreign library over a type from a module that is not part of this model. It is the `decode` parameter. Which JSON fields feed which record fields is not modelled.
- RSS serialisation (`channel.to_string()`) and the `rss` builders' internals: a black box, the `render` parameter. Item and channel fields that the code never sets are not modelled.
- FeedPathsDistinct: a file is identified by its path text. Symlinks, hard links and case-insensitive file systems are not modelled; nor are targets of several path segments, which the plain-target condition excludes.
- Filesystem calls: I/O. Their success is an input. `create_dir_all`'s directories are not tracked; only files are. A `write_all` that fails part-way is modelled as leaving an empty file, not the prefix it may have written. Whether the last buffered write lands (`lastWriteLands`) is an input too, because the file is never flushed.
- Concurrency of `join_all` and `try_join_all`: modelled as sequential maps that keep input order. File effects are applied in target order, so races between duplicate targets writing the same path are not modelled.
- Combinators.TryJoinAll: reports the error of the first failing task in input order, and Transform.ChannelFailureIsFirstFailingItem's "every earlier public episode succeeds" rests on that order.
  - Recent `futures` releases pick the implementation from the iterator's upper size bound, not from how many futures it yields. For the filtered iterator at lib.rs:86-90 that bound is the number of all episodes, public or not.
  - For a comic with more than 30 episodes (public or not), `try_join_all` is built on `FuturesOrdered` and reports the first failure in input order, even when 30 or fewer of them are public.
  - For a comic with at most 30 episodes, the small concurrent version returns a failure when it polls it, which can be a later task's.
  - In that case the real error is only known to be one of the failing tasks' errors.
- Logging: the error-logging loop at lib.rs:50-54 and every `info!`/`trace!` span.
- The command-line entry point (crates/mangacross-rss-cli/src/main.rs): argument parsing, logging setup, reading the configuration file, elapsed-time report. It is I/O and wiring.
- Configuration loading (crates/mangacross-rss/src/config.rs): the target list is the `targets` parameter.
- Error detail: `anyhow::Error` becomes the `Error` kinds `Network`, `Decode`, `HeaderNotStr`, `Io` and `BuildFailed`, without messages.
- Windows path rules for `Path::join`: only the Unix ones are modelled.

/** `build_rss`: for every configured target, fetch, decode, build the
    channel, render it and write `<output>/<target>/feed.xml`; the run
    succeeds exactly when every target does. Network, JSON decoding, RSS
    rendering and the filesystem are inputs (`TargetIo`, `decode`,
    `render`); the files a run leaves are computed from its reports. */
module Pipeline {
  import opened Wrappers
  import opened Errors
  import opened Http
  import opened Feed
  import opened MangaCross
  import opened Combinators
  import opened Strings
  import opened Transform
  import opened Paths

  /** What the outside world does for one target: the metadata response
      body (None for a `reqwest` error), the image probe of each episode,
      whether `create_dir_all`, `File::create` and `write_all` return `Ok`,
      and whether the last buffer lands. A tokio `File` returns from
      `write_all` once the last buffer is handed to a background write; the
      file is never flushed, so a failure of that write reaches nobody. */
  datatype TargetIo = TargetIo(
    response: Option<string>,
    probe: nat -> Probe,
    dirCreated: bool,
    fileCreated: bool,
    written: bool,
    lastWriteLands: bool)

  /** What one target leaves on disk: nothing, a file truncated by
      `File::create` whose content did not all land, or the written feed. */
  datatype FileEffect =
    | NoFile
    | Truncated(path: string)
    | Wrote(path: string, content: string)

  datatype TargetReport = TargetReport(url: string, outcome: Result<(), Error>, file: FileEffect)

  datatype Run = Run(verdict: Result<(), Error>, reports: seq<TargetReport>)

  /** Lines 27-33: the response, decoded into a comic, turned into a channel.
      A failed GET is `Network`, a body that does not decode is `Decode`, and
      a decoded comic gives exactly its channel, success or error. */
  function FetchAndBuild(host: string, io: TargetIo, decode: string -> Option<Comic>): (r: Result<Channel, Error>)
    ensures io.response.None? ==> r == Failure(Network)
    ensures io.response.Some? && decode(io.response.value).None? ==> r == Failure(Decode)
    ensures io.response.Some? && decode(io.response.value).Some? ==>
      r == ComicToChannel(host, decode(io.response.value).value, io.probe)
    ensures r.Failure? ==> r.error in {Network, Decode, HeaderNotStr}
  {
    match io.response
    case None => Failure(Network)
    case Some(body) =>
      match decode(body)
      case None => Failure(Decode)
      case Some(comic) => ComicToChannel(host, comic, io.probe)
  }

  /** Every step of one target's task returns `Ok`. */
  predicate StepsSucceed(host: string, io: TargetIo, decode: string -> Option<Comic>) {
    FetchAndBuild(host, io, decode).Success? && io.dirCreated && io.fileCreated && io.written
  }

  /** The channel was built and `File::create` truncated the feed file. */
  predicate FileCreated(host: string, io: TargetIo, decode: string -> Option<Comic>) {
    FetchAndBuild(host, io, decode).Success? && io.dirCreated && io.fileCreated
  }

  /** One target's task: nothing touches the disk before the channel is
      built; the target succeeds exactly when every step returns `Ok`, and
      its feed is on disk exactly when, besides, the last buffer lands. */
  function RunTarget(host: string, output: string, target: string, io: TargetIo,
                     decode: string -> Option<Comic>, render: Channel -> string): (rep: TargetReport)
    ensures StripAffixes(rep.url, host + "/api/comics/", ".json?type=public") == Some(target)
    ensures rep.outcome.Success? <==> StepsSucceed(host, io, decode)
    ensures rep.file.Wrote? <==> StepsSucceed(host, io, decode) && io.lastWriteLands
    ensures FileCreated(host, io, decode) && !(io.written && io.lastWriteLands) ==>
      rep.file == Truncated(FeedPath(output, target))
    ensures FetchAndBuild(host, io, decode).Failure? ==>
      rep.outcome == Failure(FetchAndBuild(host, io, decode).error)
    ensures FetchAndBuild(host, io, decode).Success? && rep.outcome.Failure? ==> rep.outcome.error == Io
    ensures rep.file != NoFile ==>
      && FetchAndBuild(host, io, decode).Success? && io.dirCreated && io.fileCreated
      && rep.file.path == FeedPath(output, target)
    ensures rep.file.Wrote? ==> rep.file.content == render(FetchAndBuild(host, io, decode).value)
  {
    var url := MetadataUrl(host, target);
    match FetchAndBuild(host, io, decode)
    case Failure(e) => TargetReport(url, Failure(e), NoFile)
    case Success(channel) =>
      var feed := render(channel);
      var file := FeedPath(output, target);
      if !io.dirCreated then TargetReport(url, Failure(Io), NoFile)
      else if !io.fileCreated then TargetReport(url, Failure(Io), NoFile)
      else if !io.written then TargetReport(url, Failure(Io), Truncated(file))
      else if !io.lastWriteLands then TargetReport(url, Success(()), Truncated(file))
      else TargetReport(url, Success(()), Wrote(file, feed))
  }

  function Outcomes(reports: seq<TargetReport>): (r: seq<Result<(), Error>>)
    ensures |r| == |reports| && forall i :: 0 <= i < |r| ==> r[i] == reports[i].outcome
  {
    seq(|reports|, i requires 0 <= i < |reports| => reports[i].outcome)
  }

  /** `build_rss`: one report per configured target, in order and duplicates
      included, each depending on its own target and inputs alone; the run
      succeeds exactly when every target does. */
  function BuildRss(host: string, output: string, targets: seq<string>, ios: seq<TargetIo>,
                    decode: string -> Option<Comic>, render: Channel -> string): (run: Run)
    requires |ios| == |targets|
    ensures |run.reports| == |targets|
    ensures forall i :: 0 <= i < |targets| ==>
      run.reports[i] == RunTarget(host, output, targets[i], ios[i], decode, render)
    ensures run.verdict.Success? <==> forall i :: 0 <= i < |targets| ==> run.reports[i].outcome.Success?
    ensures run.verdict.Failure? ==> run.verdict.error == BuildFailed
  {
    var reports := seq(|targets|, i requires 0 <= i < |targets| =>
      RunTarget(host, output, targets[i], ios[i], decode, render));
    var verdict := if AllOk(Outcomes(reports)) then Success(()) else Failure(BuildFailed);
    Run(verdict, reports)
  }

  // The files on disk, by path.
  type Files = map<string, string>

  function Lookup(fs: Files, path: string): Option<string> {
    if path in fs then Some(fs[path]) else None
  }

  /** The files one report overwrites, with their new contents. */
  function Overwrites(e: FileEffect): Files
  {
    match e
    case NoFile => map[]
    case Truncated(p) => map[p := ""]
    case Wrote(p, c) => map[p := c]
  }

  function ApplyEffect(fs: Files, e: FileEffect): Files {
    match e
    case NoFile => fs
    case Truncated(p) => fs[p := ""]
    case Wrote(p, c) => fs[p := c]
  }

  /** The disk after the reports' effects, applied in target order. */
  function ApplyReports(fs: Files, reports: seq<TargetReport>): (after: Files)
    ensures fs.Keys <= after.Keys
    decreases |reports|
  {
    if reports == [] then fs else ApplyReports(ApplyEffect(fs, reports[0].file), reports[1..])
  }

  /** Every path the reports touch with its final content, the later report
      winning. */
  function Assignments(reports: seq<TargetReport>): Files
    decreases |reports|
  {
    if reports == [] then map[] else Overwrites(reports[0].file) + Assignments(reports[1..])
  }

  lemma EffectIsOverride(fs: Files, e: FileEffect)
    ensures ApplyEffect(fs, e) == fs + Overwrites(e)
  {
  }

  lemma MergeAssociative(a: Files, b: Files, c: Files)
    ensures (a + b) + c == a + (b + c)
  {
    var l, r := (a + b) + c, a + (b + c);
    assert l.Keys == r.Keys;
    forall k | k in l.Keys ensures l[k] == r[k] {
    }
  }

  /** Applying the reports overrides the touched paths and keeps the rest. */
  lemma {:induction false} ApplyIsOverride(fs: Files, reports: seq<TargetReport>)
    ensures ApplyReports(fs, reports) == fs + Assignments(reports)
    decreases |reports|
  {
    if reports != [] {
      var e := reports[0].file;
      ApplyIsOverride(ApplyEffect(fs, e), reports[1..]);
      EffectIsOverride(fs, e);
      MergeAssociative(fs, Overwrites(e), Assignments(reports[1..]));
    }
  }

  /** Every write is an overwrite: repeating a run's effects on its own
      result changes nothing. */
  lemma RerunIsIdempotent(fs: Files, reports: seq<TargetReport>)
    ensures ApplyReports(ApplyReports(fs, reports), reports) == ApplyReports(fs, reports)
  {
    ApplyIsOverride(fs, reports);
    ApplyIsOverride(ApplyReports(fs, reports), reports);
    var a := Assignments(reports);
    MergeAssociative(fs, a, a);
    assert a + a == a;
  }

  /** The content a file effect leaves. */
  function Content(e: FileEffect): string
    requires !e.NoFile?
  {
    match e
    case Truncated(_) => ""
    case Wrote(_, c) => c
  }

  /** A path no report touches is not assigned. */
  lemma {:induction false} UntouchedNotAssigned(reports: seq<TargetReport>, path: string)
    requires forall j :: 0 <= j < |reports| ==> reports[j].file.NoFile? || reports[j].file.path != path
    ensures path !in Assignments(reports)
    decreases |reports|
  {
    if reports != [] {
      UntouchedNotAssigned(reports[1..], path);
    }
  }

  /** The last report that touches a path decides its content. */
  lemma {:induction false} LastEffectWins(reports: seq<TargetReport>, i: nat)
    requires i < |reports| && !reports[i].file.NoFile?
    requires forall j :: i < j < |reports| ==>
      reports[j].file.NoFile? || reports[j].file.path != reports[i].file.path
    ensures Lookup(Assignments(reports), reports[i].file.path) == Some(Content(reports[i].file))
    decreases i
  {
    var path := reports[i].file.path;
    if i == 0 {
      UntouchedNotAssigned(reports[1..], path);
    } else {
      LastEffectWins(reports[1..], i - 1);
    }
  }

  /** The configured targets are distinct plain names. */
  predicate DistinctPlainTargets(targets: seq<string>) {
    && (forall i :: 0 <= i < |targets| ==> IsPlainTarget(targets[i]))
    && (forall i, j :: 0 <= i < j < |targets| ==> targets[i] != targets[j])
  }

  /** Target i's feed file after the run is as its own report says. */
  lemma FeedFileAfterRun(host: string, output: string, targets: seq<string>, ios: seq<TargetIo>,
                         decode: string -> Option<Comic>, render: Channel -> string, fs: Files, i: nat)
    requires |ios| == |targets| && DistinctPlainTargets(targets) && i < |targets|
    ensures var rs := BuildRss(host, output, targets, ios, decode, render).reports;
      Lookup(ApplyReports(fs, rs), FeedPath(output, targets[i])) ==
        if rs[i].file.NoFile? then Lookup(fs, FeedPath(output, targets[i])) else Some(Content(rs[i].file))
  {
    var rs := BuildRss(host, output, targets, ios, decode, render).reports;
    var path := FeedPath(output, targets[i]);
    ApplyIsOverride(fs, rs);
    OtherTargetsMissPath(host, output, targets, ios, decode, render, i);
    if rs[i].file.NoFile? {
      UntouchedNotAssigned(rs, path);
    } else {
      LastEffectWins(rs, i);
    }
  }

  /** With distinct plain targets, under any root, each target's file ends
      up as its own report says, whatever the other targets do: its feed
      when written, an empty file when `File::create` succeeded but the
      content did not all land, and the previous content when the target
      failed before `File::create`. */
  lemma RunOutputs(host: string, output: string, targets: seq<string>, ios: seq<TargetIo>,
                   decode: string -> Option<Comic>, render: Channel -> string, fs: Files)
    requires |ios| == |targets| && DistinctPlainTargets(targets)
    ensures var run := BuildRss(host, output, targets, ios, decode, render);
      var after := ApplyReports(fs, run.reports);
      forall i :: 0 <= i < |targets| ==>
        Lookup(after, FeedPath(output, targets[i])) ==
          if run.reports[i].file.NoFile? then Lookup(fs, FeedPath(output, targets[i]))
          else Some(Content(run.reports[i].file))
  {
    forall i | 0 <= i < |targets|
      ensures var rs := BuildRss(host, output, targets, ios, decode, render).reports;
        Lookup(ApplyReports(fs, rs), FeedPath(output, targets[i])) ==
          if rs[i].file.NoFile? then Lookup(fs, FeedPath(output, targets[i])) else Some(Content(rs[i].file))
    {
      FeedFileAfterRun(host, output, targets, ios, decode, render, fs, i);
    }
  }

  /** No other plain target touches target i's feed file. */
  lemma OtherTargetsMissPath(host: string, output: string, targets: seq<string>, ios: seq<TargetIo>,
                             decode: string -> Option<Comic>, render: Channel -> string, i: nat)
    requires |ios| == |targets| && DistinctPlainTargets(targets) && i < |targets|
    ensures var rs := BuildRss(host, output, targets, ios, decode, render).reports;
      forall j :: 0 <= j < |rs| && j != i && !rs[j].file.NoFile? ==> rs[j].file.path != FeedPath(output, targets[i])
  {
    var rs := BuildRss(host, output, targets, ios, decode, render).reports;
    forall j | 0 <= j < |rs| && j != i && !rs[j].file.NoFile?
      ensures rs[j].file.path != FeedPath(output, targets[i])
    {
      FeedPathsDistinct(output, targets[j], targets[i]);
    }
  }

  /** A target whose steps all return `Ok` was fetched, decoded and built,
      its channel has one item per public episode, and its rendering is in
      the feed file unless the last buffer failed to land. */
  lemma SucceededTargetFeed(host: string, output: string, target: string, io: TargetIo,
                            decode: string -> Option<Comic>, render: Channel -> string)
    requires StepsSucceed(host, io, decode)
    ensures && io.response.Some? && decode(io.response.value).Some?
      && var comic := decode(io.response.value).value;
         var channel := ComicToChannel(host, comic, io.probe);
         && channel.Success?
         && |channel.value.items| == |PublicPositions(comic.episodes)|
         && RunTarget(host, output, target, io, decode, render).file ==
              if io.lastWriteLands then Wrote(FeedPath(output, target), render(channel.value))
              else Truncated(FeedPath(output, target))
  {
    var comic := decode(io.response.value).value;
    ChannelItemsFollowPublicEpisodes(host, comic, io.probe);
  }

  /** What a successful run leaves for target i. */
  lemma SucceededTargetAfterRun(host: string, output: string, targets: seq<string>, ios: seq<TargetIo>,
                                decode: string -> Option<Comic>, render: Channel -> string, fs: Files, i: nat)
    requires |ios| == |targets| && DistinctPlainTargets(targets) && i < |targets|
    requires StepsSucceed(host, ios[i], decode)
    ensures var after := ApplyReports(fs, BuildRss(host, output, targets, ios, decode, render).reports);
      && ios[i].response.Some? && decode(ios[i].response.value).Some?
      && var comic := decode(ios[i].response.value).value;
         var channel := ComicToChannel(host, comic, ios[i].probe);
         && channel.Success?
         && |channel.value.items| == |PublicPositions(comic.episodes)|
         && Lookup(after, FeedPath(output, targets[i])) ==
              Some(if ios[i].lastWriteLands then render(channel.value) else "")
         && (IsPlainDir(output) ==> FeedPath(output, targets[i]) == output + "/" + targets[i] + "/feed.xml")
  {
    FeedFileAfterRun(host, output, targets, ios, decode, render, fs, i);
    SucceededTargetFeed(host, output, targets[i], ios[i], decode, render);
    if IsPlainDir(output) {
      FeedPathLayout(output, targets[i]);
    }
  }

  /** After a successful run over distinct plain targets, under any root,
      each target's feed file holds its rendered channel (empty if the last
      buffer failed to land), made from the target's decoded comic and
      holding one item per public episode; for a root without a trailing
      separator that file is `<output>/<target>/feed.xml`. */
  lemma SuccessfulRunWritesEveryFeed(host: string, output: string, targets: seq<string>, ios: seq<TargetIo>,
                                     decode: string -> Option<Comic>, render: Channel -> string, fs: Files)
    requires |ios| == |targets| && DistinctPlainTargets(targets)
    requires BuildRss(host, output, targets, ios, decode, render).verdict.Success?
    ensures var after := ApplyReports(fs, BuildRss(host, output, targets, ios, decode, render).reports);
      forall i :: 0 <= i < |targets| ==>
        && ios[i].response.Some? && decode(ios[i].response.value).Some?
        && var comic := decode(ios[i].response.value).value;
           var channel := ComicToChannel(host, comic, ios[i].probe);
           && channel.Success?
           && |channel.value.items| == |PublicPositions(comic.episodes)|
           && Lookup(after, FeedPath(output, targets[i])) ==
                Some(if ios[i].lastWriteLands then render(channel.value) else "")
           && (IsPlainDir(output) ==> FeedPath(output, targets[i]) == output + "/" + targets[i] + "/feed.xml")
  {
    var run := BuildRss(host, output, targets, ios, decode, render);
    forall i | 0 <= i < |targets|
      ensures var after := ApplyReports(fs, run.reports);
        && ios[i].response.Some? && decode(ios[i].response.value).Some?
        && var comic := decode(ios[i].response.value).value;
           var channel := ComicToChannel(host, comic, ios[i].probe);
           && channel.Success?
           && |channel.value.items| == |PublicPositions(comic.episodes)|
           && Lookup(after, FeedPath(output, targets[i])) ==
                Some(if ios[i].lastWriteLands then render(channel.value) else "")
           && (IsPlainDir(output) ==> FeedPath(output, targets[i]) == output + "/" + targets[i] + "/feed.xml")
    {
      assert run.reports[i].outcome.Success?;
      SucceededTargetAfterRun(host, output, targets, ios, decode, render, fs, i);
    }
  }

  /** One failing target fails the run but takes nothing from the others:
      under any root, every target whose own steps succeed and whose last
      buffer lands still has its feed on disk. */
  lemma FailureIsIsolated(host: string, output: string, targets: seq<string>, ios: seq<TargetIo>,
                          decode: string -> Option<Comic>, render: Channel -> string, fs: Files, failed: nat)
    requires |ios| == |targets| && DistinctPlainTargets(targets)
    requires failed < |targets| && RunTarget(host, output, targets[failed], ios[failed], decode, render).outcome.Failure?
    ensures var run := BuildRss(host, output, targets, ios, decode, render);
      && run.verdict == Failure(BuildFailed)
      && forall i :: 0 <= i < |targets| && StepsSucceed(host, ios[i], decode) && ios[i].lastWriteLands ==>
           Lookup(ApplyReports(fs, run.reports), FeedPath(output, targets[i])) ==
             Some(render(FetchAndBuild(host, ios[i], decode).value))
  {
    var run := BuildRss(host, output, targets, ios, decode, render);
    forall i | 0 <= i < |targets| && StepsSucceed(host, ios[i], decode) && ios[i].lastWriteLands
      ensures Lookup(ApplyReports(fs, run.reports), FeedPath(output, targets[i])) ==
        Some(render(FetchAndBuild(host, ios[i], decode).value))
    {
      FeedFileAfterRun(host, output, targets, ios, decode, render, fs, i);
    }
  }
}

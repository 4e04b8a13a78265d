/** The strings `build_rss` composes for one target: the metadata URL, and the
    output directory and feed file built with `Path::join`. */
module Paths {
  import opened Wrappers
  import opened Strings

  /** A path with a root; on Unix, one that starts with '/'. */
  predicate IsAbsolute(p: string) {
    |p| > 0 && p[0] == '/'
  }

  /** `Path::join` on Unix: an absolute `path` replaces `base`; otherwise a
      separator is put between them unless `base` is empty or already ends
      with one. */
  function Join(base: string, path: string): (r: string)
    ensures |r| >= |path| && r[|r| - |path|..] == path
    ensures IsAbsolute(path) ==> r == path
    ensures !IsAbsolute(path) ==> base <= r
  {
    if IsAbsolute(path) then path
    else if |base| > 0 && base[|base| - 1] != '/' then base + "/" + path
    else base + path
  }

  /** What joining a relative path to `output` puts in front of it. */
  function RootPrefix(output: string): string {
    if |output| > 0 && output[|output| - 1] != '/' then output + "/" else output
  }

  /** `{MANGACROSS_HOST}/api/comics/{target}.json?type=public`; the target
      can be read back from it. */
  function MetadataUrl(host: string, target: string): (url: string)
    ensures StripAffixes(url, host + "/api/comics/", ".json?type=public") == Some(target)
  {
    StripComposed(host + "/api/comics/", target, ".json?type=public");
    host + "/api/comics/" + target + ".json?type=public"
  }

  /** `output.join(target)`: a relative target goes below the root, an
      absolute one replaces it. */
  function OutputDir(output: string, target: string): (dir: string)
    ensures !IsAbsolute(target) ==> dir == RootPrefix(output) + target
    ensures IsAbsolute(target) ==> dir == target
  {
    Join(output, target)
  }

  /** One directory entry name: not empty, without a separator, and neither
      `.` nor `..`. Distinct such names are distinct entries of a directory. */
  predicate IsPlainTarget(target: string) {
    |target| > 0 && (forall i :: 0 <= i < |target| ==> target[i] != '/') && target != "." && target != ".."
  }

  /** `output.join(target).join("feed.xml")`: for a plain target, the file
      `feed.xml` in the directory named by the target below the root, whatever
      the root is; the target can be read back from it. */
  function FeedPath(output: string, target: string): (path: string)
    ensures IsPlainTarget(target) ==> path == RootPrefix(output) + target + "/feed.xml"
    ensures IsPlainTarget(target) ==>
      StripAffixes(path, RootPrefix(output), "/feed.xml") == Some(target)
  {
    if IsPlainTarget(target) then
      FeedFileOfPlainTarget(output, target);
      Join(OutputDir(output, target), "feed.xml")
    else
      Join(OutputDir(output, target), "feed.xml")
  }

  lemma FeedFileOfPlainTarget(output: string, target: string)
    requires IsPlainTarget(target)
    ensures Join(OutputDir(output, target), "feed.xml") == RootPrefix(output) + target + "/feed.xml"
    ensures StripAffixes(RootPrefix(output) + target + "/feed.xml", RootPrefix(output), "/feed.xml") == Some(target)
  {
    var dir := OutputDir(output, target);
    assert dir[|dir| - 1] == target[|target| - 1];
    assert RootPrefix(output) + target + "/feed.xml" == dir + "/" + "feed.xml";
    StripComposed(RootPrefix(output), target, "/feed.xml");
  }

  /** An output root that ends without a separator. */
  predicate IsPlainDir(output: string) {
    |output| > 0 && output[|output| - 1] != '/'
  }

  /** For a root that does not end in a separator, the feed goes to
      `<output>/<target>/feed.xml`. */
  lemma FeedPathLayout(output: string, target: string)
    requires IsPlainDir(output) && IsPlainTarget(target)
    ensures FeedPath(output, target) == output + "/" + target + "/feed.xml"
  {
    assert RootPrefix(output) == output + "/";
  }

  /** Distinct plain targets write to distinct files, for every root. */
  lemma FeedPathsDistinct(output: string, t1: string, t2: string)
    requires IsPlainTarget(t1) && IsPlainTarget(t2) && t1 != t2
    ensures FeedPath(output, t1) != FeedPath(output, t2)
  {
    if FeedPath(output, t1) == FeedPath(output, t2) {
      ComposedInjective(RootPrefix(output), t1, t2, "/feed.xml");
    }
  }

  /** A target with a trailing separator shares the file of the target
      without it. */
  lemma TrailingSeparatorSharesFeed(output: string, target: string)
    requires IsPlainTarget(target)
    ensures FeedPath(output, target + "/") == FeedPath(output, target)
  {
    assert !IsAbsolute(target + "/");
    assert OutputDir(output, target + "/") == RootPrefix(output) + target + "/";
  }

  /** An absolute target's feed path does not depend on the output root. */
  lemma AbsoluteTargetIgnoresOutput(output1: string, output2: string, target: string)
    requires IsAbsolute(target)
    ensures FeedPath(output1, target) == FeedPath(output2, target) == Join(target, "feed.xml")
  {
  }

  /** The empty target writes `feed.xml` directly into the output root. */
  lemma EmptyTargetWritesIntoRoot(output: string)
    ensures FeedPath(output, "") == RootPrefix(output) + "feed.xml"
  {
    assert OutputDir(output, "") == RootPrefix(output);
  }
}

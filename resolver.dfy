/**
 * The snapshot URL resolver (`arcUrl`): which archive URL a request is fetched from.
 * The pathname that `new URL(url)` would extract is passed in beside the URL,
 * and the configured timestamp (`ARCHIVE_TIME`) is a parameter.
 */
module Resolver {
  import opened Text

  const ArchiveOrigin := "https://web.archive.org"

  /** Digits taken from here complete a configured timestamp shorter than 14 characters. */
  const TimeFallback := "19980101000000"

  /** The pattern read literally: `/web/`, `d` digits, an optional `fw_` or `im_`, then `/`. */
  ghost predicate ArchivePathShape(path: string, d: nat, mode: string) {
    (mode == "" || mode == "fw_" || mode == "im_")
    && "/web/" <= path && 1 <= d && 5 + d <= |path|
    && AllDigits(path[5..5 + d]) && mode + "/" <= path[5 + d..]
  }

  /**
   * `^/web/\d+((fw|im)_)?/`: the path already names a snapshot. The digit run
   * is greedy and a digit can never be where `/`, `f` or `i` is required, so
   * backtracking into it never helps and the whole run is taken.
   */
  predicate IsArchivePath(path: string): (b: bool)
    ensures b <==> exists d: nat, mode: string :: ArchivePathShape(path, d, mode)
  {
    "/web/" <= path
    && (ArchivePathRun(path);
        var n := DigitRun(path[5..]);
        var rest := path[5 + n..];
        0 < n && ("/" <= rest || "fw_/" <= rest || "im_/" <= rest))
  }

  /** The whole digit run, followed by one of the three endings, is exactly a literal match. */
  lemma ArchivePathRun(path: string)
    requires "/web/" <= path
    ensures var n := DigitRun(path[5..]);
      var rest := path[5 + n..];
      (0 < n && ("/" <= rest || "fw_/" <= rest || "im_/" <= rest))
      <==> exists d: nat, mode: string :: ArchivePathShape(path, d, mode)
  {
    ArchivePathRunSound(path);
    if exists d: nat, mode: string :: ArchivePathShape(path, d, mode) {
      var d: nat, mode: string :| ArchivePathShape(path, d, mode);
      ArchivePathRunComplete(path, d, mode);
    }
  }

  /** What the matcher accepts has the literal shape, with the whole digit run. */
  lemma ArchivePathRunSound(path: string)
    requires "/web/" <= path
    ensures var n := DigitRun(path[5..]);
      var rest := path[5 + n..];
      0 < n && ("/" <= rest || "fw_/" <= rest || "im_/" <= rest) ==> ArchivePathShape(path, n, if "/" <= rest then "" else rest[..3])
  {
    var n := DigitRun(path[5..]);
    var rest := path[5 + n..];
    if 0 < n && ("/" <= rest || "fw_/" <= rest || "im_/" <= rest) {
      var digits := path[5..5 + n];
      forall k | 0 <= k < n ensures IsDigit(digits[k]) {
        assert digits[k] == path[5..][k];
      }
      if !("/" <= rest) {
        assert rest[..3] + "/" <= rest;
      }
    }
  }

  /** A literal shape is found by the matcher: its digits are the whole run. */
  lemma ArchivePathRunComplete(path: string, d: nat, mode: string)
    requires ArchivePathShape(path, d, mode)
    ensures DigitRun(path[5..]) == d
    ensures var rest := path[5 + d..]; "/" <= rest || "fw_/" <= rest || "im_/" <= rest
  {
    var tail := path[5..];
    assert tail[d] == (mode + "/")[0];
    forall k | 0 <= k < d ensures IsDigit(tail[k]) {
      assert tail[k] == path[5..5 + d][k];
    }
    DigitRunExact(tail, d);
    assert path[5 + d..] == tail[d..];
  }

  /** `time + timeFallback.slice(time.length)`; `slice` past the end gives the empty string. */
  function Timestamp(time: string): (ts: string)
    ensures |time| <= |TimeFallback| ==> |ts| == |TimeFallback| && ts[..|time|] == time
    ensures |time| <= |TimeFallback| ==> ts[|time|..] == TimeFallback[|time|..]
    ensures time == "" ==> ts == TimeFallback
    ensures |TimeFallback| <= |time| ==> ts == time
  {
    time + TimeFallback[if |time| < |TimeFallback| then |time| else |TimeFallback|..]
  }

  /**
   * `arcUrl`: the archive URL fetched for a request URL whose pathname is
   * `path`. It is always on the archive host, and with a configured timestamp
   * of at most 14 digits it always names a snapshot.
   */
  function ArcUrl(url: string, path: string, time: string): (r: string)
    ensures ArchiveOrigin <= r
    ensures AllDigits(time) && |time| <= |TimeFallback| ==> IsArchivePath(r[|ArchiveOrigin|..])
  {
    if IsArchivePath(path) then ArchiveOrigin + path
    else
      SnapshotPathShape(time, url);
      ArchiveOrigin + SnapshotPath(time, url)
  }

  /**
   * Any other path has its full request URL wrapped in a snapshot path on the
   * archive host, whatever the configured timestamp holds.
   */
  lemma ArcUrlWrap(url: string, path: string, time: string)
    requires !IsArchivePath(path)
    ensures ArcUrl(url, path, time) == ArchiveOrigin + SnapshotPath(time, url)
  {
  }

  /** An archive-shaped path is passed through onto the archive host, whatever the URL and timestamp. */
  lemma ArcUrlPassThrough(url: string, path: string, time: string, url': string, time': string)
    requires IsArchivePath(path)
    ensures ArcUrl(url, path, time) == ArchiveOrigin + path
    ensures ArcUrl(url, path, time) == ArcUrl(url', path, time')
  {
  }

  lemma FallbackDigits()
    ensures AllDigits(TimeFallback)
  {
  }

  /** A timestamp of at most 14 digits is completed to exactly 14 digits. */
  lemma TimestampDigits(time: string)
    requires AllDigits(time) && |time| <= |TimeFallback|
    ensures |Timestamp(time)| == 14 && AllDigits(Timestamp(time))
  {
    var ts := Timestamp(time);
    var tail := TimeFallback[|time|..];
    FallbackDigits();
    assert ts == time + tail;
    forall k | 0 <= k < |ts| ensures IsDigit(ts[k]) {
      if k < |time| {
        assert ts[k] == time[k];
      } else {
        assert ts[k] == tail[k - |time|] == TimeFallback[k];
      }
    }
  }

  /** The path `arcUrl` builds for a request that is not archive-shaped. */
  function SnapshotPath(time: string, url: string): string {
    "/web/" + Timestamp(time) + "/" + url
  }

  /** A timestamp of digits makes the built path archive-shaped. */
  lemma SnapshotPathIsArchivePath(time: string, url: string)
    requires AllDigits(time) && |time| <= |TimeFallback|
    ensures IsArchivePath(SnapshotPath(time, url))
  {
    var ts := Timestamp(time);
    var p := SnapshotPath(time, url);
    TimestampDigits(time);
    assert p[5..] == ts + "/" + url;
    DigitRunExact(p[5..], |ts|);
    assert p[5 + |ts|..] == "/" + url;
  }

  /** The same fact as an implication, for the contract of `ArcUrl`. */
  lemma SnapshotPathShape(time: string, url: string)
    ensures AllDigits(time) && |time| <= |TimeFallback| ==> IsArchivePath(SnapshotPath(time, url))
  {
    if AllDigits(time) && |time| <= |TimeFallback| {
      SnapshotPathIsArchivePath(time, url);
    }
  }

  /**
   * Any other request is wrapped as `/web/<timestamp>/<url>`, and when the
   * configured timestamp is at most 14 digits the path of the result is
   * archive-shaped itself, so resolving it again changes nothing.
   */
  lemma ArcUrlSnapshot(url: string, path: string, time: string, url': string, time': string)
    requires !IsArchivePath(path)
    requires AllDigits(time) && |time| <= |TimeFallback|
    ensures ArcUrl(url, path, time) == ArchiveOrigin + SnapshotPath(time, url)
    ensures ArcUrl(url', SnapshotPath(time, url), time') == ArcUrl(url, path, time)
  {
    SnapshotPathIsArchivePath(time, url);
  }
}

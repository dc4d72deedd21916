/**
 * The body rewriter (`filterBody`): five regular-expression replacements
 * applied one after the other to the decoded text of a textual response.
 * Each replacement is written out as a string function that follows the
 * pattern's own semantics (global or first match only, case sensitivity,
 * greediness), beside a declarative description of what the pattern matches.
 */
module Rewriter {
  import opened Text
  import opened Results

  // ---------------------------------------------------------------------------
  // (a) /https:\/\/web\.archive\.org\//gi  ->  'http://web.archive.org/'
  // ---------------------------------------------------------------------------

  const SecureArchiveRoot := "https://web.archive.org/"
  const PlainArchiveRoot := "http://web.archive.org/"

  /** Every case-insensitive `https://web.archive.org/`, scanning left to right, becomes `http://web.archive.org/`. */
  function DowngradeArchiveScheme(s: string): (r: string)
    ensures |r| < |s| || r == s
    decreases |s|
  {
    if s == [] then []
    else if CiAt(s, 0, SecureArchiveRoot) then PlainArchiveRoot + DowngradeArchiveScheme(s[|SecureArchiveRoot|..])
    else [s[0]] + DowngradeArchiveScheme(s[1..])
  }

  ghost predicate HasSecureArchiveRef(s: string) {
    exists i: nat :: CiAt(s, i, SecureArchiveRoot)
  }

  /** No occurrence at the front: occurrences of `s` are those of `s[1..]`, one further on. */
  lemma SecureArchiveRefTail(s: string)
    requires s != [] && !CiAt(s, 0, SecureArchiveRoot)
    ensures HasSecureArchiveRef(s) <==> HasSecureArchiveRef(s[1..])
  {
    if HasSecureArchiveRef(s) {
      var i: nat :| CiAt(s, i, SecureArchiveRoot);
      CiAtShift(s, 1, i - 1, SecureArchiveRoot);
    }
    if HasSecureArchiveRef(s[1..]) {
      var i: nat :| CiAt(s[1..], i, SecureArchiveRoot);
      CiAtShift(s, 1, i, SecureArchiveRoot);
    }
  }

  /** A reference at the front is rewritten: its `s` is gone. */
  lemma DowngradeChangesMatch(s: string)
    requires CiAt(s, 0, SecureArchiveRoot)
    ensures DowngradeArchiveScheme(s) != s && HasSecureArchiveRef(s)
  {
    var r := DowngradeArchiveScheme(s);
    assert r == PlainArchiveRoot + DowngradeArchiveScheme(s[|SecureArchiveRoot|..]);
    assert r[4] == PlainArchiveRoot[4];
    assert Lower(s[4]) == Lower(SecureArchiveRoot[4]);
  }

  /** Step (a) leaves the text alone exactly when it holds no secure archive reference. */
  lemma {:induction false} DowngradeUnchangedIff(s: string)
    ensures DowngradeArchiveScheme(s) == s <==> !HasSecureArchiveRef(s)
    decreases |s|
  {
    if s == [] {
    } else if CiAt(s, 0, SecureArchiveRoot) {
      DowngradeChangesMatch(s);
    } else {
      DowngradeUnchangedIff(s[1..]);
      SecureArchiveRefTail(s);
      assert s == [s[0]] + s[1..];
    }
  }

  /** The leftmost secure reference, at or before a known one. */
  lemma LeftmostSecureRef(s: string, i: nat) returns (p: nat)
    requires CiAt(s, i, SecureArchiveRoot)
    ensures p <= i && CiAt(s, p, SecureArchiveRoot)
    ensures forall q: nat :: q < p ==> !CiAt(s, q, SecureArchiveRoot)
    decreases i
  {
    if exists q: nat :: q < i && CiAt(s, q, SecureArchiveRoot) {
      var q: nat :| q < i && CiAt(s, q, SecureArchiveRoot);
      p := LeftmostSecureRef(s, q);
    } else {
      p := i;
    }
  }

  /**
   * Step (a) keeps the text before the first secure reference, writes the
   * plain root in its place and resumes right after it.
   */
  lemma DowngradeFirstMatch(s: string, p: nat)
    requires CiAt(s, p, SecureArchiveRoot)
    requires forall q: nat :: q < p ==> !CiAt(s, q, SecureArchiveRoot)
    ensures DowngradeArchiveScheme(s)
      == s[..p] + PlainArchiveRoot + DowngradeArchiveScheme(s[p + |SecureArchiveRoot|..])
  {
    FirstMatchTo(s, p, p + |SecureArchiveRoot|);
  }

  /** `DowngradeFirstMatch` with the end `e` of the reference named. */
  lemma {:induction false} FirstMatchTo(s: string, p: nat, e: nat)
    requires e == p + |SecureArchiveRoot| && CiAt(s, p, SecureArchiveRoot)
    requires forall q: nat :: q < p ==> !CiAt(s, q, SecureArchiveRoot)
    ensures DowngradeArchiveScheme(s) == s[..p] + PlainArchiveRoot + DowngradeArchiveScheme(s[e..])
    decreases p
  {
    if p == 0 {
      DowngradeAtMatch(s);
      assert s[..0] == [];
    } else {
      FirstMatchShift(s, p);
      FirstMatchTo(s[1..], p - 1, e - 1);
      FirstMatchStep(s, p, e);
    }
  }

  /** The inductive step of `FirstMatchTo`: one character before the match is kept. */
  lemma FirstMatchStep(s: string, p: nat, e: nat)
    requires 0 < p < e <= |s| && !CiAt(s, 0, SecureArchiveRoot)
    requires var t := s[1..];
      DowngradeArchiveScheme(t) == t[..p - 1] + PlainArchiveRoot + DowngradeArchiveScheme(t[e - 1..])
    ensures DowngradeArchiveScheme(s) == s[..p] + PlainArchiveRoot + DowngradeArchiveScheme(s[e..])
  {
    assert s[1..][e - 1..] == s[e..];
    DowngradeSkip(s);
    ConsRegroup(s, p, PlainArchiveRoot, DowngradeArchiveScheme(s[e..]),
      DowngradeArchiveScheme(s), DowngradeArchiveScheme(s[1..]));
  }

  lemma ConsRegroup(s: string, p: nat, c: string, d: string, x: string, y: string)
    requires 0 < p <= |s|
    requires x == [s[0]] + y && y == s[1..][..p - 1] + c + d
    ensures x == s[..p] + c + d
  {
    assert [s[0]] + s[1..][..p - 1] == s[..p];
    ConcatRegroup([s[0]], s[1..][..p - 1], c, d);
  }

  /** One step of step (a) at a reference. */
  lemma DowngradeAtMatch(s: string)
    requires CiAt(s, 0, SecureArchiveRoot)
    ensures DowngradeArchiveScheme(s) == PlainArchiveRoot + DowngradeArchiveScheme(s[|SecureArchiveRoot|..])
  {
  }

  /** One step of step (a) away from a reference. */
  lemma DowngradeSkip(s: string)
    requires s != [] && !CiAt(s, 0, SecureArchiveRoot)
    ensures DowngradeArchiveScheme(s) == [s[0]] + DowngradeArchiveScheme(s[1..])
  {
  }

  /** With no reference at the front, the first one in `s[1..]` is one place earlier. */
  lemma FirstMatchShift(s: string, p: nat)
    requires 0 < p && CiAt(s, p, SecureArchiveRoot)
    requires forall q: nat :: q < p ==> !CiAt(s, q, SecureArchiveRoot)
    ensures !CiAt(s, 0, SecureArchiveRoot) && CiAt(s[1..], p - 1, SecureArchiveRoot)
    ensures forall q: nat :: q < p - 1 ==> !CiAt(s[1..], q, SecureArchiveRoot)
  {
    CiAtShift(s, 1, p - 1, SecureArchiveRoot);
    forall q: nat | q < p - 1 ensures !CiAt(s[1..], q, SecureArchiveRoot) {
      CiAtShift(s, 1, q, SecureArchiveRoot);
    }
  }

  lemma ConcatRegroup(a: string, b: string, c: string, d: string)
    ensures a + (b + c + d) == (a + b) + c + d
  {
  }

  /** Inside the secure root, only index 15 holds an `h`, and `i` follows it. */
  lemma SecureRootSelfOverlap(d: nat)
    requires 1 <= d < |SecureArchiveRoot|
    ensures Lower(SecureArchiveRoot[d]) != 'h' || (d + 1 < |SecureArchiveRoot| && Lower(SecureArchiveRoot[d + 1]) != 't')
  {
  }

  /** Inside the plain root, an `h` starts only `http` or `hive`, neither of which continues as `https://`. */
  lemma PlainRootStarts(q: nat)
    requires q < |PlainArchiveRoot|
    ensures Lower(PlainArchiveRoot[q]) != 'h'
      || (q == 0 && PlainArchiveRoot[4] == ':')
      || (q == 14 && PlainArchiveRoot[15] == 'i')
  {
  }

  /** A suffix without secure references contributes none to the whole. */
  lemma NoRefInSuffix(t: string, a: nat, j: nat)
    requires a <= |t| && !HasSecureArchiveRef(t[a..])
    ensures !CiAt(t, a + j, SecureArchiveRoot)
  {
    CiAtShift(t, a, j, SecureArchiveRoot);
  }

  /** No occurrence starts before the plain root and reaches into it. */
  lemma NoRefIntoPlainRoot(pre: string, post: string, i: nat)
    requires i < |pre| < i + |SecureArchiveRoot|
    ensures !CiAt(pre + PlainArchiveRoot + post, i, SecureArchiveRoot)
  {
    var t := pre + PlainArchiveRoot + post;
    var d := |pre| - i;
    assert t[i + d] == PlainArchiveRoot[0] && t[i + d + 1] == PlainArchiveRoot[1];
    SecureRootSelfOverlap(d);
    if Lower(SecureArchiveRoot[d]) != 'h' {
      MismatchAt(t, i, SecureArchiveRoot, d);
    } else {
      MismatchAt(t, i, SecureArchiveRoot, d + 1);
    }
  }

  /** No occurrence starts inside the plain root. */
  lemma NoRefInPlainRoot(pre: string, post: string, q: nat)
    requires q < |PlainArchiveRoot|
    ensures !CiAt(pre + PlainArchiveRoot + post, |pre| + q, SecureArchiveRoot)
  {
    var t := pre + PlainArchiveRoot + post;
    var i := |pre| + q;
    assert t[i] == PlainArchiveRoot[q];
    PlainRootStarts(q);
    if Lower(PlainArchiveRoot[q]) != 'h' {
      MismatchAt(t, i, SecureArchiveRoot, 0);
    } else if q == 0 {
      assert t[i + 4] == PlainArchiveRoot[4];
      MismatchAt(t, i, SecureArchiveRoot, 4);
    } else {
      assert t[i + 1] == PlainArchiveRoot[15];
      MismatchAt(t, i, SecureArchiveRoot, 1);
    }
  }

  /**
   * Writing the plain root between a text without a complete secure reference
   * and a text without any creates none: no occurrence can start before the
   * plain root and reach into it, start inside it, or end in it.
   */
  lemma NoRefAcrossPlainRoot(pre: string, post: string)
    requires forall i: nat :: i + |SecureArchiveRoot| <= |pre| ==> !CiAt(pre, i, SecureArchiveRoot)
    requires !HasSecureArchiveRef(post)
    ensures !HasSecureArchiveRef(pre + PlainArchiveRoot + post)
  {
    var t := pre + PlainArchiveRoot + post;
    var n := |pre|;
    var a := n + |PlainArchiveRoot|;
    assert t[..n] == pre && t[a..] == post;
    forall i: nat ensures !CiAt(t, i, SecureArchiveRoot) {
      if i + |SecureArchiveRoot| <= n {
        CiAtPrefix(t, n, i, SecureArchiveRoot);
      } else if i < n {
        NoRefIntoPlainRoot(pre, post, i);
      } else if i < a {
        NoRefInPlainRoot(pre, post, i - n);
      } else {
        NoRefInSuffix(t, a, i - a);
      }
    }
  }

  /** After step (a) no secure archive reference is left, in any letter case. */
  lemma {:induction false} DowngradeLeavesNoSecureRef(s: string)
    ensures !HasSecureArchiveRef(DowngradeArchiveScheme(s))
    decreases |s|
  {
    if !HasSecureArchiveRef(s) {
      DowngradeUnchangedIff(s);
    } else {
      var i: nat :| CiAt(s, i, SecureArchiveRoot);
      var p := LeftmostSecureRef(s, i);
      var rest := s[p + |SecureArchiveRoot|..];
      DowngradeFirstMatch(s, p);
      DowngradeLeavesNoSecureRef(rest);
      forall j: nat | j + |SecureArchiveRoot| <= p ensures !CiAt(s[..p], j, SecureArchiveRoot) {
        CiAtPrefix(s, p, j, SecureArchiveRoot);
      }
      NoRefAcrossPlainRoot(s[..p], DowngradeArchiveScheme(rest));
    }
  }

  // ---------------------------------------------------------------------------
  // (b) /(https?:\/\/web\.archive\.org)?\/web\/\d+(\/|fw_\/)/g  ->  ''
  // ---------------------------------------------------------------------------

  const SecureArchiveHost := "https://web.archive.org"
  const PlainArchiveHost := "http://web.archive.org"

  /** `\/web\/\d+(\/|fw_\/)` read literally at the front of `t`: `d` digits and the terminator `end`. */
  ghost predicate PathShape(t: string, d: nat, end: string) {
    (end == "/" || end == "fw_/")
    && "/web/" <= t && 1 <= d && 5 + d <= |t|
    && AllDigits(t[5..5 + d]) && end <= t[5 + d..]
  }

  /** The whole pattern read literally at the front of `s`, with its optional host. */
  ghost predicate SnapshotShape(s: string, host: string, d: nat, end: string) {
    (host == "" || host == PlainArchiveHost || host == SecureArchiveHost)
    && host <= s && PathShape(s[|host|..], d, end)
  }

  /** Length of `\/web\/\d+(\/|fw_\/)` at the front of `t`, or 0 when it does not match there. */
  function SnapshotPathLength(t: string): (n: nat)
    ensures n <= |t|
  {
    if !("/web/" <= t) then 0
    else
      var d := DigitRun(t[5..]);
      var rest := t[5 + d..];
      if d == 0 then 0
      else if "/" <= rest then 6 + d
      else if "fw_/" <= rest then 9 + d
      else 0
  }

  /** Length of the optional `https?:\/\/web\.archive\.org` at the front of `s`, or 0. */
  function HostLength(s: string): (h: nat)
    ensures h == 0 || h == |SecureArchiveHost| || h == |PlainArchiveHost|
    ensures h == |SecureArchiveHost| ==> SecureArchiveHost <= s
    ensures h == |PlainArchiveHost| ==> PlainArchiveHost <= s
    ensures h == 0 ==> !(SecureArchiveHost <= s) && !(PlainArchiveHost <= s)
  {
    if SecureArchiveHost <= s then |SecureArchiveHost|
    else if PlainArchiveHost <= s then |PlainArchiveHost| else 0
  }

  /** The host, if any, that a pattern match at the front of `s` starts with is the one `HostLength` finds. */
  lemma HostLengthOf(s: string, host: string)
    requires host == "" || host == PlainArchiveHost || host == SecureArchiveHost
    requires host <= s && (host == "" ==> s != [] && s[0] == '/')
    ensures HostLength(s) == |host|
  {
    if host == "" {
      assert !(SecureArchiveHost <= s) && !(PlainArchiveHost <= s) by {
        assert SecureArchiveHost[0] == 'h' && PlainArchiveHost[0] == 'h';
      }
    } else if host == PlainArchiveHost {
      assert !(SecureArchiveHost <= s) by {
        assert s[4] == PlainArchiveHost[4] == ':';
        assert SecureArchiveHost[4] == 's';
      }
    }
  }

  /**
   * Length of the whole pattern at the front of `s`, or 0. The optional group
   * is greedy: with a host in front it is tried first, and only when the path
   * does not follow is the match without it tried (which then fails, since
   * `s` starts with `h` and not `/`).
   */
  function SnapshotLength(s: string): (n: nat)
    ensures n <= |s|
    ensures 0 < n ==> exists host: string, d: nat, end: string ::
      SnapshotShape(s, host, d, end) && n == |host| + 5 + d + |end|
  {
    var h := HostLength(s);
    if 0 < h && 0 < SnapshotPathLength(s[h..]) then
      HostedMatchSound(s, h);
      h + SnapshotPathLength(s[h..])
    else
      BareMatchSound(s);
      SnapshotPathLength(s)
  }

  lemma PathLengthExact(t: string, d: nat, end: string)
    requires PathShape(t, d, end)
    ensures SnapshotPathLength(t) == 5 + d + |end|
  {
    var tail := t[5..];
    var digits := t[5..5 + d];
    assert tail[d] == end[0];
    forall k | 0 <= k < d ensures IsDigit(tail[k]) {
      assert tail[k] == digits[k];
    }
    DigitRunExact(tail, d);
    assert t[5 + d..] == tail[d..];
  }

  /** The literal reading fixes the match length. */
  lemma SnapshotLengthExact(s: string, host: string, d: nat, end: string)
    requires SnapshotShape(s, host, d, end)
    ensures SnapshotLength(s) == |host| + 5 + d + |end|
  {
    PathLengthExact(s[|host|..], d, end);
    if host == "" {
      assert s[0..] == s;
      assert s[0] == "/web/"[0];
    }
    HostLengthOf(s, host);
  }

  /** Reads the digit count and terminator off a path match of the function. */
  lemma PathLengthSound(t: string)
    requires 0 < SnapshotPathLength(t)
    ensures exists d: nat, end: string :: PathShape(t, d, end) && SnapshotPathLength(t) == 5 + d + |end|
  {
    var d := DigitRun(t[5..]);
    var digits := t[5..5 + d];
    forall k | 0 <= k < d ensures IsDigit(digits[k]) {
      assert digits[k] == t[5..][k];
    }
    var end := if "/" <= t[5 + d..] then "/" else "fw_/";
    assert PathShape(t, d, end);
  }

  /** A match after a host is a match of the pattern with that host. */
  lemma HostedMatchSound(s: string, h: nat)
    requires h == HostLength(s) && 0 < h && 0 < SnapshotPathLength(s[h..])
    ensures exists host: string, d: nat, end: string ::
      SnapshotShape(s, host, d, end) && h + SnapshotPathLength(s[h..]) == |host| + 5 + d + |end|
  {
    PathLengthSound(s[h..]);
    var d: nat, end: string :| PathShape(s[h..], d, end) && SnapshotPathLength(s[h..]) == 5 + d + |end|;
    var host := if h == |SecureArchiveHost| then SecureArchiveHost else PlainArchiveHost;
    assert SnapshotShape(s, host, d, end);
  }

  /** A match without a host is a match of the pattern with an empty host. */
  lemma BareMatchSound(s: string)
    ensures 0 < SnapshotPathLength(s) ==> exists host: string, d: nat, end: string ::
      SnapshotShape(s, host, d, end) && SnapshotPathLength(s) == |host| + 5 + d + |end|
  {
    if 0 < SnapshotPathLength(s) {
      PathLengthSound(s);
      var d: nat, end: string :| PathShape(s, d, end) && SnapshotPathLength(s) == 5 + d + |end|;
      assert s[0..] == s;
      assert SnapshotShape(s, "", d, end);
    }
  }

  /** The length of the match at the front of a text; never more than the text holds. */
  type Matcher = f: string -> nat | forall x :: f(x) <= |x| witness (x: string) => 0

  /**
   * A global replace with the empty string: scanning from the left, a match
   * of `len(s)` characters at the front is deleted and the scan resumes right
   * after it; where nothing matches, one character is kept.
   */
  function DeleteMatches(s: string, len: Matcher): (r: string)
    ensures |r| < |s| || r == s
    decreases |s|
  {
    if s == [] then []
    else if 0 < len(s) then DeleteMatches(s[len(s)..], len)
    else [s[0]] + DeleteMatches(s[1..], len)
  }

  /** Every match of step (b) is deleted. */
  function StripSnapshotPrefixes(s: string): (r: string)
    ensures |r| < |s| || r == s
  {
    DeleteMatches(s, SnapshotLength)
  }

  /** Some `/web/<digits>/` or `/web/<digits>fw_/` occurs in `s`. */
  ghost predicate HasSnapshotPath(s: string) {
    exists i: nat, d: nat, end: string :: i <= |s| && PathShape(s[i..], d, end)
  }

  lemma SnapshotPathTail(s: string)
    requires s != [] && SnapshotLength(s) == 0
    ensures HasSnapshotPath(s) <==> HasSnapshotPath(s[1..])
  {
    if HasSnapshotPath(s) {
      var i: nat, d: nat, end: string :| i <= |s| && PathShape(s[i..], d, end);
      if i == 0 {
        assert s[0..] == s;
        SnapshotLengthExact(s, "", d, end);
      }
      assert s[1..][i - 1..] == s[i..];
    }
    if HasSnapshotPath(s[1..]) {
      var i: nat, d: nat, end: string :| i <= |s[1..]| && PathShape(s[1..][i..], d, end);
      assert s[1..][i..] == s[i + 1..];
    }
  }

  /** A match at the front, with or without its host, contains a snapshot path. */
  lemma MatchIsSnapshotPath(s: string)
    requires 0 < SnapshotLength(s)
    ensures HasSnapshotPath(s)
  {
    var host: string, d: nat, end: string :| SnapshotShape(s, host, d, end);
    assert PathShape(s[|host|..], d, end);
  }

  /** Step (b) leaves the text alone exactly when no snapshot path occurs in it. */
  lemma {:induction false} StripUnchangedIff(s: string)
    ensures StripSnapshotPrefixes(s) == s <==> !HasSnapshotPath(s)
    decreases |s|
  {
    if s == [] {
    } else if 0 < SnapshotLength(s) {
      StripChangesMatch(s);
    } else {
      var r := StripSnapshotPrefixes(s[1..]);
      StripSkip(s);
      StripUnchangedIff(s[1..]);
      SnapshotPathTail(s);
      assert s == [s[0]] + s[1..];
      assert [s[0]] + r == s <==> r == s[1..];
    }
  }

  /** A snapshot prefix at the front is removed, so the text changes. */
  lemma StripChangesMatch(s: string)
    requires 0 < SnapshotLength(s)
    ensures StripSnapshotPrefixes(s) != s && HasSnapshotPath(s)
  {
    MatchIsSnapshotPath(s);
    var rest := s[SnapshotLength(s)..];
    assert StripSnapshotPrefixes(s) == StripSnapshotPrefixes(rest);
    assert |StripSnapshotPrefixes(rest)| <= |rest| < |s|;
  }

  /** One step of step (b) away from a snapshot prefix. */
  lemma StripSkip(s: string)
    requires s != [] && SnapshotLength(s) == 0
    ensures StripSnapshotPrefixes(s) == [s[0]] + StripSnapshotPrefixes(s[1..])
  {
  }

  /**
   * Step (b) keeps the text before the first snapshot prefix, deletes that
   * prefix (its `n` characters) and resumes right after it.
   */
  lemma StripFirstMatch(s: string, p: nat, n: nat)
    requires p < |s| && 0 < n && SnapshotLength(s[p..]) == n
    requires forall q: nat :: q < p ==> SnapshotLength(s[q..]) == 0
    ensures StripSnapshotPrefixes(s) == s[..p] + StripSnapshotPrefixes(s[p + n..])
  {
    DeleteFirstMatchAt(s, SnapshotLength, p, n);
    StripIsDelete(s);
    StripIsDelete(s[p + n..]);
  }

  lemma StripIsDelete(s: string)
    ensures StripSnapshotPrefixes(s) == DeleteMatches(s, SnapshotLength)
  {
  }

  /** `DeleteFirstMatch` at a position of `s`. */
  lemma DeleteFirstMatchAt(s: string, len: Matcher, p: nat, n: nat)
    requires p < |s| && 0 < n && len(s[p..]) == n
    requires forall q: nat :: q < p ==> len(s[q..]) == 0
    ensures DeleteMatches(s, len) == s[..p] + DeleteMatches(s[p + n..], len)
  {
    NoMatchInAt(s, len, p);
    DeleteFirstMatch(s[..p], s[p..], len);
    SplitSlices(s, p, n);
  }

  lemma NoMatchInAt(s: string, len: Matcher, p: nat)
    requires p <= |s|
    requires forall q: nat :: q < p ==> len(s[q..]) == 0
    ensures NoMatchIn(s[..p], s[p..], len)
  {
    assert s[..p] + s[p..] == s;
    NoMatchInOf(s[..p], s[p..], len);
  }

  lemma SplitSlices(s: string, p: nat, n: nat)
    requires p + n <= |s|
    ensures s[..p] + s[p..] == s && s[p..][n..] == s[p + n..]
  {
  }

  /** No match of `len` starts inside `pre` when it is followed by `m`. */
  ghost predicate NoMatchIn(pre: string, m: string, len: Matcher)
    decreases |pre|
  {
    pre == [] || (len(pre + m) == 0 && NoMatchIn(pre[1..], m, len))
  }

  /** `NoMatchIn` from the positions before `|pre|` one by one. */
  lemma {:induction false} NoMatchInOf(pre: string, m: string, len: Matcher)
    requires forall q: nat :: q < |pre| ==> len((pre + m)[q..]) == 0
    ensures NoMatchIn(pre, m, len)
    decreases |pre|
  {
    if pre != [] {
      var s := pre + m;
      assert s[0..] == s;
      forall q: nat | q < |pre[1..]| ensures len((pre[1..] + m)[q..]) == 0 {
        assert (pre[1..] + m)[q..] == s[q + 1..];
      }
      NoMatchInOf(pre[1..], m, len);
    }
  }

  /**
   * The first match decides the result: the text `pre` before it is kept and
   * the scan resumes right after the match.
   */
  lemma {:induction false} DeleteFirstMatch(pre: string, m: string, len: Matcher)
    requires 0 < len(m) && NoMatchIn(pre, m, len)
    ensures DeleteMatches(pre + m, len) == pre + DeleteMatches(m[len(m)..], len)
    decreases |pre|
  {
    if pre == [] {
      DeleteAtFront(pre, m, len);
    } else {
      DeleteSkipFront(pre, m, len);
      DeleteFirstMatch(pre[1..], m, len);
      PrependRegroup(pre, DeleteMatches(m[len(m)..], len), DeleteMatches(pre + m, len), DeleteMatches(pre[1..] + m, len));
    }
  }

  lemma DeleteAtFront(pre: string, m: string, len: Matcher)
    requires pre == [] && 0 < len(m)
    ensures DeleteMatches(pre + m, len) == pre + DeleteMatches(m[len(m)..], len)
  {
    assert pre + m == m;
    assert pre + DeleteMatches(m[len(m)..], len) == DeleteMatches(m[len(m)..], len);
  }

  lemma DeleteSkipFront(pre: string, m: string, len: Matcher)
    requires pre != [] && len(pre + m) == 0
    ensures DeleteMatches(pre + m, len) == [pre[0]] + DeleteMatches(pre[1..] + m, len)
  {
    var s := pre + m;
    assert s[1..] == pre[1..] + m;
  }

  lemma PrependRegroup(pre: string, rest: string, x: string, y: string)
    requires pre != [] && x == [pre[0]] + y && y == pre[1..] + rest
    ensures x == pre + rest
  {
    assert [pre[0]] + pre[1..] == pre;
  }

  /** Step (b) only deletes characters. */
  lemma {:induction false} StripIsSubsequence(s: string)
    ensures IsSubsequence(StripSnapshotPrefixes(s), s)
    decreases |s|
  {
    if s == [] {
    } else if 0 < SnapshotLength(s) {
      var n := SnapshotLength(s);
      StripIsSubsequence(s[n..]);
      SubsequenceDropPrefix(StripSnapshotPrefixes(s[n..]), s[n..], s[..n]);
      assert s[..n] + s[n..] == s;
    } else {
      StripIsSubsequence(s[1..]);
      var r := StripSnapshotPrefixes(s);
      assert r[0] == s[0] && r[1..] == StripSnapshotPrefixes(s[1..]);
    }
  }

  // ---------------------------------------------------------------------------
  // (c) /^[\s\t\r\n]+</i  ->  '<'
  // ---------------------------------------------------------------------------

  /** Length of the white-space run at the front of `s`. */
  function LeadingSpaceLength(s: string): (n: nat)
    ensures n <= |s|
    ensures forall k :: 0 <= k < n ==> IsJsSpace(s[k])
    ensures n < |s| ==> !IsJsSpace(s[n])
  {
    if s == [] || !IsJsSpace(s[0]) then 0 else 1 + LeadingSpaceLength(s[1..])
  }

  /** `s` opens with one or more white-space characters and then `<`. */
  ghost predicate SpaceThenTag(s: string) {
    exists n: nat :: 0 < n < |s| && s[n] == '<' && forall k :: 0 <= k < n ==> IsJsSpace(s[k])
  }

  /**
   * The white space in front of a leading `<` is removed; nothing else is.
   * `<` is not white space, so the greedy run stops right at it.
   */
  function TrimSpaceBeforeTag(s: string): (r: string)
    ensures |r| <= |s| && r == s[|s| - |r|..]
    ensures forall k :: 0 <= k < |s| - |r| ==> IsJsSpace(s[k])
    ensures r != s ==> r != [] && r[0] == '<'
    ensures r == s <==> !SpaceThenTag(s)
  {
    var n := LeadingSpaceLength(s);
    if 0 < n < |s| && s[n] == '<' then s[n..] else s
  }

  /** Step (c) only deletes characters. */
  lemma TrimIsSubsequence(s: string)
    ensures IsSubsequence(TrimSpaceBeforeTag(s), s)
  {
    var r := TrimSpaceBeforeTag(s);
    SubsequenceRefl(r);
    SubsequenceDropPrefix(r, r, s[..|s| - |r|]);
    assert s[..|s| - |r|] + r == s;
  }

  // ---------------------------------------------------------------------------
  // (d) /(<head[^>]*>)(.|[\r\n])*<!-- End Wayback Rewrite JS Include -->/i -> '$1'
  // (e) the same with <html
  // ---------------------------------------------------------------------------

  const WaybackMarker := "<!-- End Wayback Rewrite JS Include -->"
  const HeadTag := "<head"
  const HtmlTag := "<html"

  /**
   * The pattern matches at `i`: the tag opens at `i`, its first `>` is at `j`,
   * every character strictly between `j` and `m` is one `(.|[\r\n])` accepts,
   * and the marker starts at `m`; all letters compare without case.
   */
  ghost predicate BlockAt(s: string, tag: string, i: nat, j: nat, m: nat) {
    CiAt(s, i, tag) && i + |tag| <= j < m && j < |s| && s[j] == '>'
    && (forall k :: i + |tag| <= k < j ==> s[k] != '>')
    && CiAt(s, m, WaybackMarker)
    && (forall k :: j < k < m ==> !IsLineSeparator(s[k]))
  }

  ghost predicate HasBlock(s: string, tag: string) {
    exists i: nat, j: nat, m: nat :: BlockAt(s, tag, i, j, m)
  }

  /** The match a non-global replacement uses: the leftmost start, and the greedy `*` runs to the last marker it can reach. */
  ghost predicate FirstBlock(s: string, tag: string, i: nat, j: nat, m: nat) {
    BlockAt(s, tag, i, j, m)
    && (forall i': nat, j': nat, m': nat :: i' < i ==> !BlockAt(s, tag, i', j', m'))
    && (forall m': nat :: m < m' ==> !BlockAt(s, tag, i, j, m'))
  }

  datatype Block = Block(start: nat, tagEnd: nat, marker: nat)

  /** Index of the first `>` at or after `from`, or `|s|`. */
  function FirstGreater(s: string, from: nat): (j: nat)
    requires from <= |s|
    ensures from <= j <= |s| && (j < |s| ==> s[j] == '>')
    ensures forall k :: from <= k < j ==> s[k] != '>'
    decreases |s| - from
  {
    if from == |s| || s[from] == '>' then from else FirstGreater(s, from + 1)
  }

  /** Index of the first U+2028 or U+2029 at or after `from`, or `|s|`: how far `(.|[\r\n])*` can reach. */
  function FirstLineSeparator(s: string, from: nat): (e: nat)
    requires from <= |s|
    ensures from <= e <= |s| && (e < |s| ==> IsLineSeparator(s[e]))
    ensures forall k :: from <= k < e ==> !IsLineSeparator(s[k])
    decreases |s| - from
  {
    if from == |s| || IsLineSeparator(s[from]) then from else FirstLineSeparator(s, from + 1)
  }

  /** The largest index in `lo..hi` where `marker` starts, if any. */
  function LastMarker(s: string, marker: string, lo: nat, hi: nat): (m: Option<nat>)
    requires lo <= hi
    ensures m.Some? ==> lo <= m.value <= hi && CiAt(s, m.value, marker)
    ensures m.Some? ==> forall k :: m.value < k <= hi ==> !CiAt(s, k, marker)
    ensures m.None? ==> forall k :: lo <= k <= hi ==> !CiAt(s, k, marker)
    decreases hi - lo
  {
    if CiAt(s, hi, marker) then Some(hi)
    else if hi == lo then None
    else LastMarker(s, marker, lo, hi - 1)
  }

  /**
   * The leftmost start at or after `from` where the pattern matches, with the
   * tag's first `>` and the last marker the span can reach.
   */
  function FindBlock(s: string, tag: string, from: nat): (b: Option<Block>)
    requires from <= |s|
    ensures b.Some? ==> from <= b.value.start && BlockAt(s, tag, b.value.start, b.value.tagEnd, b.value.marker)
    ensures b.Some? ==> forall i: nat, j: nat, m: nat :: from <= i < b.value.start ==> !BlockAt(s, tag, i, j, m)
    ensures b.Some? ==> forall m: nat :: b.value.marker < m ==> !BlockAt(s, tag, b.value.start, b.value.tagEnd, m)
    ensures b.None? ==> forall i: nat, j: nat, m: nat :: from <= i ==> !BlockAt(s, tag, i, j, m)
    decreases |s| - from
  {
    if |s| <= from + |tag| then None
    else
      var here := if CiAt(s, from, tag) then BlockFrom(s, tag, from) else None;
      if here.Some? then here
      else
        assert forall j: nat, m: nat :: !BlockAt(s, tag, from, j, m);
        FindBlock(s, tag, from + 1)
  }

  /** The match that starts at `i`, if there is one. */
  function BlockFrom(s: string, tag: string, i: nat): (b: Option<Block>)
    requires CiAt(s, i, tag)
    ensures b.Some? ==> b.value.start == i && BlockAt(s, tag, i, b.value.tagEnd, b.value.marker)
    ensures b.Some? ==> forall m: nat :: b.value.marker < m ==> !BlockAt(s, tag, i, b.value.tagEnd, m)
    ensures b.None? ==> forall j: nat, m: nat :: !BlockAt(s, tag, i, j, m)
  {
    var j := FirstGreater(s, i + |tag|);
    if j == |s| then None
    else
      var e := FirstLineSeparator(s, j + 1);
      var m := LastMarker(s, WaybackMarker, j + 1, e);
      TagEndUnique(s, tag, i, j);
      MarkerWithinReach(s, tag, i, j, e);
      if m.Some? then Some(Block(i, j, m.value)) else None
  }

  /** The tag of a match ends at the first `>` after its name. */
  lemma TagEndUnique(s: string, tag: string, i: nat, j: nat)
    requires CiAt(s, i, tag) && j == FirstGreater(s, i + |tag|)
    ensures forall j': nat, m: nat :: BlockAt(s, tag, i, j', m) ==> j' == j
  {
  }

  /** A marker the span can reach starts no later than the first line separator after the tag. */
  lemma MarkerWithinReach(s: string, tag: string, i: nat, j: nat, e: nat)
    requires j < |s| && e == FirstLineSeparator(s, j + 1)
    ensures forall m: nat :: BlockAt(s, tag, i, j, m) ==> m <= e
    ensures forall m: nat ::
              (j < m <= e && CiAt(s, m, WaybackMarker) && CiAt(s, i, tag) && i + |tag| <= j && s[j] == '>'
               && (forall k :: i + |tag| <= k < j ==> s[k] != '>'))
              ==> BlockAt(s, tag, i, j, m)
  {
  }

  /** `$1` in place of the leftmost match: the text up to and including the tag, then the text after the marker. */
  function RemoveWaybackBlock(s: string, tag: string): (r: string)
    ensures r == s <==> !HasBlock(s, tag)
    ensures r == s || |r| < |s|
  {
    match FindBlock(s, tag, 0)
    case None => s
    case Some(b) => s[..b.tagEnd + 1] + s[b.marker + |WaybackMarker|..]
  }

  /** Whenever the pattern matches somewhere, there is a leftmost, greedy match. */
  lemma FirstBlockExists(s: string, tag: string)
    requires HasBlock(s, tag)
    ensures exists i: nat, j: nat, m: nat :: FirstBlock(s, tag, i, j, m)
  {
    var b := FindBlock(s, tag, 0);
    assert b.Some?;
    assert FirstBlock(s, tag, b.value.start, b.value.tagEnd, b.value.marker);
  }

  /**
   * Steps (d) and (e) keep everything up to and including the opening tag of
   * the leftmost match, drop everything from there through the last reachable
   * marker, and keep the rest untouched; a later block is left alone.
   */
  lemma WaybackBlockRemoval(s: string, tag: string, i: nat, j: nat, m: nat)
    requires FirstBlock(s, tag, i, j, m)
    ensures RemoveWaybackBlock(s, tag) == s[..j + 1] + s[m + |WaybackMarker|..]
  {
    var b := FindBlock(s, tag, 0);
    assert b.Some?;
    assert b.value.start == i;
    assert b.value.tagEnd == j;
    assert b.value.marker == m;
  }

  /** Without line separators the greedy span reaches the last marker of the whole text. */
  lemma WaybackBlockReachesLastMarker(s: string, tag: string, i: nat, j: nat, m: nat)
    requires FirstBlock(s, tag, i, j, m)
    requires forall k :: 0 <= k < |s| ==> !IsLineSeparator(s[k])
    ensures forall k: nat :: m < k ==> !CiAt(s, k, WaybackMarker)
  {
    forall k: nat | m < k && CiAt(s, k, WaybackMarker) ensures false {
      assert BlockAt(s, tag, i, j, k);
    }
  }

  /** Steps (d) and (e) only delete characters. */
  lemma RemoveIsSubsequence(s: string, tag: string)
    ensures IsSubsequence(RemoveWaybackBlock(s, tag), s)
  {
    var lo, hi := RemovedSpan(s, tag);
    DeleteSliceIsSubsequence(s, lo, hi);
  }

  /** Steps (d) and (e) cut out one slice of the text, possibly empty. */
  lemma RemovedSpan(s: string, tag: string) returns (lo: nat, hi: nat)
    ensures lo <= hi <= |s| && RemoveWaybackBlock(s, tag) == s[..lo] + s[hi..]
  {
    var found := FindBlock(s, tag, 0);
    if found.Some? {
      var b := found.value;
      BlockSpan(s, tag, b.start, b.tagEnd, b.marker);
      lo, hi := b.tagEnd + 1, b.marker + |WaybackMarker|;
    } else {
      lo, hi := |s|, |s|;
      assert s[..lo] + s[hi..] == s;
    }
  }

  lemma BlockSpan(s: string, tag: string, i: nat, j: nat, m: nat)
    requires BlockAt(s, tag, i, j, m)
    ensures j + 1 <= m + |WaybackMarker| <= |s|
  {
  }

  // ---------------------------------------------------------------------------
  // filterBody
  // ---------------------------------------------------------------------------

  /**
   * The five replacements, in the order the source chains them. The body is
   * returned unchanged exactly when none of the patterns matches.
   */
  function FilterBody(body: string): (r: string)
    ensures r == body <==> IsClean(body)
  {
    var a := DowngradeArchiveScheme(body);
    var b := StripSnapshotPrefixes(a);
    var c := TrimSpaceBeforeTag(b);
    var d := RemoveWaybackBlock(c, HeadTag);
    var e := RemoveWaybackBlock(d, HtmlTag);
    StepsUnchangedIff(body, a, b, c, d, e);
    e
  }

  /** None of the five patterns matches. */
  ghost predicate IsClean(body: string) {
    !HasSecureArchiveRef(body) && !HasSnapshotPath(body) && !SpaceThenTag(body)
    && !HasBlock(body, HeadTag) && !HasBlock(body, HtmlTag)
  }

  /**
   * The chained steps leave a body unchanged exactly when none of their
   * patterns matches: every step that changes the text also shortens it, so
   * no later step can undo a change.
   */
  lemma StepsUnchangedIff(body: string, a: string, b: string, c: string, d: string, e: string)
    requires a == DowngradeArchiveScheme(body) && b == StripSnapshotPrefixes(a) && c == TrimSpaceBeforeTag(b)
    requires d == RemoveWaybackBlock(c, HeadTag) && e == RemoveWaybackBlock(d, HtmlTag)
    ensures e == body <==> IsClean(body)
  {
    DowngradeUnchangedIff(body);
    StripUnchangedIff(a);
    if e == body {
      assert |c| == |b| ==> c == b by {
        if |c| == |b| {
          assert c == b[0..];
        }
      }
    }
  }

  /** After step (a), the remaining steps only delete characters. */
  lemma FilterBodyOnlyDeletes(body: string)
    ensures IsSubsequence(FilterBody(body), DowngradeArchiveScheme(body))
  {
    var a := DowngradeArchiveScheme(body);
    var b := StripSnapshotPrefixes(a);
    var c := TrimSpaceBeforeTag(b);
    var d := RemoveWaybackBlock(c, HeadTag);
    var e := RemoveWaybackBlock(d, HtmlTag);
    StripIsSubsequence(a);
    TrimIsSubsequence(b);
    RemoveIsSubsequence(c, HeadTag);
    RemoveIsSubsequence(d, HtmlTag);
    SubsequenceTrans(c, b, a);
    SubsequenceTrans(d, c, a);
    SubsequenceTrans(e, d, a);
  }

  /** Bodies with no secure archive reference, snapshot path, leading space before `<` or marker pass through. */
  lemma FilterBodyWithoutArtifacts(body: string)
    requires !HasSecureArchiveRef(body) && !HasSnapshotPath(body) && !SpaceThenTag(body)
    requires forall k: nat :: !CiAt(body, k, WaybackMarker)
    ensures FilterBody(body) == body
  {
    assert !HasBlock(body, HeadTag) && !HasBlock(body, HtmlTag);
  }

  const ExampleSite := "http://example.com"
  const ExampleSnapshot := "web/19980101000000/" + ExampleSite

  lemma ExampleStepA()
    ensures DowngradeArchiveScheme(SecureArchiveRoot + ExampleSnapshot) == PlainArchiveRoot + ExampleSnapshot
  {
    var body := SecureArchiveRoot + ExampleSnapshot;
    var rest := ExampleSnapshot;
    assert CiAt(body, 0, SecureArchiveRoot);
    assert body[|SecureArchiveRoot|..] == rest;
    forall i: nat ensures !CiAt(rest, i, SecureArchiveRoot) {
      if i + |SecureArchiveRoot| <= |rest| {
        assert Lower(rest[i]) != Lower(SecureArchiveRoot[0]);
      }
    }
    DowngradeUnchangedIff(rest);
  }

  /** `/web/`, a run of digits, `/` and any text has the path shape. */
  lemma SlashTerminatedPath(digits: string, rest: string)
    requires 1 <= |digits| && AllDigits(digits)
    ensures PathShape("/web/" + (digits + ("/" + rest)), |digits|, "/")
  {
    var t := "/web/" + (digits + ("/" + rest));
    assert t[5..] == digits + ("/" + rest);
    assert t[5..5 + |digits|] == digits;
    assert t[5 + |digits|..] == "/" + rest;
  }

  /** The plain archive host followed by a path of that shape is matched in full. */
  lemma PlainHostSnapshot(digits: string, rest: string)
    requires 1 <= |digits| && AllDigits(digits)
    ensures var s := PlainArchiveHost + ("/web/" + (digits + ("/" + rest)));
      SnapshotLength(s) == |PlainArchiveHost| + 6 + |digits| && s[SnapshotLength(s)..] == rest
  {
    var t := "/web/" + (digits + ("/" + rest));
    var s := PlainArchiveHost + t;
    SlashTerminatedPath(digits, rest);
    assert s[|PlainArchiveHost|..] == t;
    assert SnapshotShape(s, PlainArchiveHost, |digits|, "/");
    SnapshotLengthExact(s, PlainArchiveHost, |digits|, "/");
    assert s[|PlainArchiveHost| + 6 + |digits|..] == rest;
  }

  lemma ExampleMatch()
    ensures SnapshotLength(PlainArchiveRoot + ExampleSnapshot) == 42
    ensures (PlainArchiveRoot + ExampleSnapshot)[42..] == ExampleSite
  {
    var digits := "19980101000000";
    assert AllDigits(digits);
    assert PlainArchiveRoot + ExampleSnapshot == PlainArchiveHost + ("/web/" + (digits + ("/" + ExampleSite)));
    PlainHostSnapshot(digits, ExampleSite);
  }

  lemma ExampleSiteHasNoSnapshotPath()
    ensures !HasSnapshotPath(ExampleSite)
  {
    var site := ExampleSite;
    assert forall k :: 0 <= k < |site| ==> site[k] != 'w';
    forall i: nat, d: nat, end: string | i <= |site| ensures !PathShape(site[i..], d, end) {
      if i + 1 < |site| {
        assert site[i..][1] == site[i + 1];
      }
    }
  }

  lemma ExampleStepB()
    ensures StripSnapshotPrefixes(PlainArchiveRoot + ExampleSnapshot) == ExampleSite
  {
    ExampleMatch();
    ExampleSiteHasNoSnapshotPath();
    StripUnchangedIff(ExampleSite);
  }

  lemma ExampleStepsCToE()
    ensures RemoveWaybackBlock(RemoveWaybackBlock(TrimSpaceBeforeTag(ExampleSite), HeadTag), HtmlTag) == ExampleSite
  {
    assert !SpaceThenTag(ExampleSite);
    assert !HasBlock(ExampleSite, HeadTag) && !HasBlock(ExampleSite, HtmlTag);
  }

  /** `https://web.archive.org/web/19980101000000/http://example.com` filters to `http://example.com`. */
  lemma FilterBodyExample()
    ensures FilterBody(SecureArchiveRoot + ExampleSnapshot) == ExampleSite
  {
    var body := SecureArchiveRoot + ExampleSnapshot;
    var a := PlainArchiveRoot + ExampleSnapshot;
    var site := ExampleSite;
    ExampleStepA();
    ExampleStepB();
    ExampleStepsCToE();
    assert FilterBody(body) == RemoveWaybackBlock(RemoveWaybackBlock(TrimSpaceBeforeTag(site), HeadTag), HtmlTag);
  }

}

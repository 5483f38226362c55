/**
 * Server-side git <-> hg hash lookup over the wire and the bundle2 sync of
 * git metadata files.  Repository, configuration and file access are
 * parameters: the flat map file is its list of lines, the client's `.hg`
 * directory is a map from file name to the set of lines of that file, and
 * what a revision lookup in the repository reports is a `RevisionLookup`.
 */
module GitLookup {
  import opened Wrappers
  import opened Lexicographic

  predicate StartsWith(s: string, prefix: string)
  {
    |prefix| <= |s| && s[..|prefix|] == prefix
  }

  // ---------------------------------------------------------------------
  // Lookup keys
  // ---------------------------------------------------------------------

  const LOOKUP_PREFIX: string := "_gitlookup_"
  const GIT_PREFIX: string := "_gitlookup_git_"
  const HG_PREFIX: string := "_gitlookup_hg_"

  /** ToHg: the key names a git commit and the hg hash is wanted; ToGit the other way. */
  datatype Direction = ToHg | ToGit

  /** The direction and hash a lookup key names, if it names any. */
  function ParseLookupKey(key: string): (r: Option<(Direction, string)>)
    ensures r.Some? && r.value.0 == ToHg ==> key == GIT_PREFIX + r.value.1
    ensures r.Some? && r.value.0 == ToGit ==> key == HG_PREFIX + r.value.1
    ensures r.None? <==> !StartsWith(key, GIT_PREFIX) && !StartsWith(key, HG_PREFIX)
  {
    if StartsWith(key, GIT_PREFIX) then Some((ToHg, key[15..]))
    else if StartsWith(key, HG_PREFIX) then Some((ToGit, key[14..]))
    else None
  }

  /** Parsing inverts building a key from a prefix and a hash. */
  lemma ParseLookupKeyOfBuiltKey(sha: string)
    ensures ParseLookupKey(GIT_PREFIX + sha) == Some((ToHg, sha))
    ensures ParseLookupKey(HG_PREFIX + sha) == Some((ToGit, sha))
  {
    assert (GIT_PREFIX + sha)[..15] == GIT_PREFIX;
    assert (GIT_PREFIX + sha)[15..] == sha;
    assert (HG_PREFIX + sha)[..14] == HG_PREFIX;
    assert (HG_PREFIX + sha)[14..] == sha;
    assert (HG_PREFIX + sha)[11] == 'h';
  }

  // ---------------------------------------------------------------------
  // Python's str.strip and the flat map file
  // ---------------------------------------------------------------------

  /** Python's str.isspace on one character. */
  predicate PyIsSpace(c: char)
  {
    || c == ' ' || ('\t' <= c <= '\r') || ('\U{1C}' <= c <= '\U{1F}')
    || c == '\U{85}' || c == '\U{A0}' || c == '\U{1680}' || ('\U{2000}' <= c <= '\U{200A}')
    || c == '\U{2028}' || c == '\U{2029}' || c == '\U{202F}' || c == '\U{205F}' || c == '\U{3000}'
  }

  function LStrip(s: string): (r: string)
    ensures |r| <= |s| && r == s[|s| - |r|..]
    ensures forall k :: 0 <= k < |s| - |r| ==> PyIsSpace(s[k])
    ensures r == [] || !PyIsSpace(r[0])
  {
    if s == [] || !PyIsSpace(s[0]) then s else LStrip(s[1..])
  }

  function RStrip(s: string): (r: string)
    ensures |r| <= |s| && r == s[..|r|]
    ensures forall k :: |r| <= k < |s| ==> PyIsSpace(s[k])
    ensures r == [] || !PyIsSpace(r[|r| - 1])
  {
    if s == [] || !PyIsSpace(s[|s| - 1]) then s else RStrip(s[..|s| - 1])
  }

  /** str.strip() with no argument. */
  function Strip(s: string): string
  {
    RStrip(LStrip(s))
  }

  /** The first index of `c` in `s`. */
  function IndexOf(s: string, c: char): (r: Option<nat>)
    ensures r.Some? ==> r.value < |s| && s[r.value] == c && c !in s[..r.value]
    ensures r.None? ==> c !in s
  {
    if s == [] then None
    else if s[0] == c then Some(0)
    else match IndexOf(s[1..], c)
      case None => None
      case Some(i) =>
        assert s[..i + 1] == [s[0]] + s[1..][..i];
        Some(i + 1)
  }

  lemma {:induction false} IndexOfFirst(a: string, c: char, b: string)
    requires c !in a
    ensures IndexOf(a + [c] + b, c) == Some(|a|)
    decreases |a|
  {
    if a != [] {
      assert (a + [c] + b)[1..] == a[1..] + [c] + b;
      IndexOfFirst(a[1..], c, b);
    }
  }

  datatype LookupError = MalformedMapLine | RepoLookupFailed

  /**
   * One line of the flat map file, stripped and split at its first space
   * into (git hash, hg hash); a line without a space cannot be unpacked
   * into two columns and raises.
   */
  function ScanLine(line: string): Result<(string, string), LookupError>
  {
    var t := Strip(line);
    match IndexOf(t, ' ')
    case None => Failure(MalformedMapLine)
    case Some(i) => Success((t[..i], t[i + 1..]))
  }

  /** How the map file stores one pair. */
  function MapLine(git: string, hg: string): string
  {
    git + " " + hg + "\n"
  }

  /** A map line with space-free, non-blank hashes scans back to its two hashes. */
  lemma ScanLineOfMapLine(git: string, hg: string)
    requires git != [] && hg != [] && ' ' !in git
    requires !PyIsSpace(git[0]) && !PyIsSpace(hg[|hg| - 1])
    ensures ScanLine(MapLine(git, hg)) == Success((git, hg))
  {
    var body := git + " " + hg;
    var line := MapLine(git, hg);
    assert line == body + "\n";
    assert LStrip(line) == line;
    assert RStrip(line) == RStrip(body) by {
      assert line[..|line| - 1] == body;
    }
    assert RStrip(body) == body;
    var t := Strip(line);
    assert t == body;
    IndexOfFirst(git, ' ', hg);
    assert t[..|git|] == git;
    assert t[|git| + 1..] == hg;
  }

  predicate IsHit(dir: Direction, sha: string, cols: (string, string))
  {
    if dir == ToHg then cols.0 == sha else cols.1 == sha
  }

  function OtherColumn(dir: Direction, cols: (string, string)): string
  {
    if dir == ToHg then cols.1 else cols.0
  }

  /** The flat-map scan: the other column of the first hit, stopping at a malformed line. */
  function FlatMapLookup(dir: Direction, sha: string, lines: seq<string>): Result<Option<string>, LookupError>
    decreases |lines|
  {
    if lines == [] then Success(None)
    else match ScanLine(lines[0])
      case Failure(e) => Failure(e)
      case Success(cols) =>
        if IsHit(dir, sha, cols) then Success(Some(OtherColumn(dir, cols)))
        else FlatMapLookup(dir, sha, lines[1..])
  }

  method ScanMapFile(dir: Direction, sha: string, lines: seq<string>) returns (r: Result<Option<string>, LookupError>)
    ensures r == FlatMapLookup(dir, sha, lines)
  {
    for i := 0 to |lines|
      invariant FlatMapLookup(dir, sha, lines[i..]) == FlatMapLookup(dir, sha, lines)
    {
      var cols := ScanLine(lines[i]);
      if cols.Failure? {
        return Failure(cols.error);
      }
      if dir == ToHg && sha == cols.value.0 {
        return Success(Some(cols.value.1));
      }
      if dir == ToGit && sha == cols.value.1 {
        return Success(Some(cols.value.0));
      }
      assert lines[i..][1..] == lines[i + 1..];
    }
    r := Success(None);
  }

  /** A line the scan reads past: well formed and not a hit. */
  predicate Passes(dir: Direction, sha: string, line: string)
  {
    ScanLine(line).Success? && !IsHit(dir, sha, ScanLine(line).value)
  }

  /** The first line the scan does not read past decides the outcome. */
  lemma {:induction false} FlatMapLookupFirstStop(dir: Direction, sha: string, lines: seq<string>, i: nat)
    requires i < |lines| && !Passes(dir, sha, lines[i])
    requires forall j :: 0 <= j < i ==> Passes(dir, sha, lines[j])
    ensures ScanLine(lines[i]).Failure? ==> FlatMapLookup(dir, sha, lines) == Failure(MalformedMapLine)
    ensures ScanLine(lines[i]).Success? ==>
      FlatMapLookup(dir, sha, lines) == Success(Some(OtherColumn(dir, ScanLine(lines[i]).value)))
    decreases i
  {
    if i > 0 {
      assert Passes(dir, sha, lines[0]);
      FlatMapLookupFirstStop(dir, sha, lines[1..], i - 1);
    }
  }

  /** When every line is read past, the scan finds nothing. */
  lemma {:induction false} FlatMapLookupMiss(dir: Direction, sha: string, lines: seq<string>)
    requires forall j :: 0 <= j < |lines| ==> Passes(dir, sha, lines[j])
    ensures FlatMapLookup(dir, sha, lines) == Success(None)
    decreases |lines|
  {
    if lines != [] {
      assert Passes(dir, sha, lines[0]);
      FlatMapLookupMiss(dir, sha, lines[1..]);
    }
  }

  /** Conversely, a found hash comes from a hit with only passed lines before it. */
  lemma {:induction false} FlatMapLookupHitWitness(dir: Direction, sha: string, lines: seq<string>, v: string)
      returns (i: nat)
    requires FlatMapLookup(dir, sha, lines) == Success(Some(v))
    ensures i < |lines| && ScanLine(lines[i]).Success? && IsHit(dir, sha, ScanLine(lines[i]).value)
    ensures OtherColumn(dir, ScanLine(lines[i]).value) == v
    ensures forall j :: 0 <= j < i ==> Passes(dir, sha, lines[j])
    decreases |lines|
  {
    if IsHit(dir, sha, ScanLine(lines[0]).value) {
      i := 0;
    } else {
      var k := FlatMapLookupHitWitness(dir, sha, lines[1..], v);
      i := k + 1;
      forall j | 0 <= j < i ensures Passes(dir, sha, lines[j]) {
        if j > 0 {
          assert lines[j] == lines[1..][j - 1];
        }
      }
    }
  }

  // ---------------------------------------------------------------------
  // _dolookup and remotelookup
  // ---------------------------------------------------------------------

  /**
   * What looking the hash up as a revision of the repository gives: an
   * unknown revision, some other lookup error, or a changeset with its
   * `convert_revision` extra ("" when absent).
   */
  datatype RevisionLookup = UnknownRevision | LookupFailed | Revision(convertRevision: string)

  /**
   * _dolookup.  `mapfile` is the flat map file when gitlookup.mapfile is
   * configured; `revision` is what the repository reports for the hash
   * (only consulted for ToGit keys).
   */
  function DoLookup(mapfile: Option<seq<string>>, key: string, revision: RevisionLookup)
    : Result<Option<string>, LookupError>
  {
    if mapfile.None? then Success(None)
    else match ParseLookupKey(key)
      case None => Success(None)
      case Some((dir, sha)) =>
        if dir == ToGit && revision == UnknownRevision then Success(None)
        else if dir == ToGit && revision == LookupFailed then Failure(RepoLookupFailed)
        else if dir == ToGit && revision.convertRevision != [] then Success(Some(revision.convertRevision))
        else if |sha| != 40 then Success(None)
        else FlatMapLookup(dir, sha, mapfile.value)
  }

  /** The cases in which a lookup gives nothing without reading the map. */
  lemma DoLookupGivesNone(mapfile: Option<seq<string>>, key: string, sha: string, revision: RevisionLookup)
    ensures mapfile.None? ==> DoLookup(mapfile, key, revision) == Success(None)
    ensures !StartsWith(key, GIT_PREFIX) && !StartsWith(key, HG_PREFIX) ==>
      DoLookup(mapfile, key, revision) == Success(None)
    ensures |sha| != 40 ==> DoLookup(mapfile, GIT_PREFIX + sha, revision) == Success(None)
    ensures |sha| != 40 && (revision == UnknownRevision || revision == Revision([])) ==>
      DoLookup(mapfile, HG_PREFIX + sha, revision) == Success(None)
    ensures revision == UnknownRevision ==> DoLookup(mapfile, HG_PREFIX + sha, revision) == Success(None)
  {
    ParseLookupKeyOfBuiltKey(sha);
  }

  /** An hg-to-git lookup prefers the commit's recorded git hash over the map. */
  lemma DoLookupPrefersExtras(lines: seq<string>, sha: string, git: string)
    requires git != []
    ensures DoLookup(Some(lines), HG_PREFIX + sha, Revision(git)) == Success(Some(git))
  {
    ParseLookupKeyOfBuiltKey(sha);
  }

  /**
   * A git-to-hg lookup of a 40-character hash finds the hg hash of the first
   * map line for it, provided every earlier line is well formed.
   */
  lemma DoLookupFindsMapLine(pre: seq<string>, git: string, hg: string, post: seq<string>, revision: RevisionLookup)
    requires |git| == 40 && hg != [] && ' ' !in git
    requires !PyIsSpace(git[0]) && !PyIsSpace(hg[|hg| - 1])
    requires forall j :: 0 <= j < |pre| ==> Passes(ToHg, git, pre[j])
    ensures DoLookup(Some(pre + [MapLine(git, hg)] + post), GIT_PREFIX + git, revision) == Success(Some(hg))
  {
    ScanLineOfMapLine(git, hg);
    FlatMapLookupFindsLine(pre, MapLine(git, hg), post, git, hg);
    DoLookupToHg(pre + [MapLine(git, hg)] + post, git, revision);
  }

  lemma DoLookupToHg(lines: seq<string>, git: string, revision: RevisionLookup)
    requires |git| == 40
    ensures DoLookup(Some(lines), GIT_PREFIX + git, revision) == FlatMapLookup(ToHg, git, lines)
  {
    ParseLookupKeyOfBuiltKey(git);
  }

  lemma FlatMapLookupFindsLine(pre: seq<string>, line: string, post: seq<string>, git: string, hg: string)
    requires ScanLine(line) == Success((git, hg))
    requires forall j :: 0 <= j < |pre| ==> Passes(ToHg, git, pre[j])
    ensures FlatMapLookup(ToHg, git, pre + [line] + post) == Success(Some(hg))
  {
    var lines := pre + [line] + post;
    assert lines[|pre|] == line;
    assert forall j :: 0 <= j < |pre| ==> lines[j] == pre[j];
    FlatMapLookupFirstStop(ToHg, git, lines, |pre|);
  }

  /**
   * remotelookup: keys without the lookup prefix go to the original handler;
   * the others are answered "1 <hash>\n" or "0 gitlookup failed\n".
   */
  function RemoteLookup(mapfile: Option<seq<string>>, key: string, revision: RevisionLookup, origReply: string)
    : (r: Result<string, LookupError>)
    ensures !StartsWith(key, LOOKUP_PREFIX) ==> r == Success(origReply)
    ensures StartsWith(key, LOOKUP_PREFIX) ==> r.Failure? == DoLookup(mapfile, key, revision).Failure?
  {
    if !StartsWith(key, LOOKUP_PREFIX) then Success(origReply)
    else match DoLookup(mapfile, key, revision)
      case Failure(e) => Failure(e)
      case Success(None) => Success("0 gitlookup failed\n")
      case Success(Some(v)) => Success("1 " + v + "\n")
  }

  /** How a client reads a lookup reply: the found hash, or none for a failed lookup. */
  function DecodeReply(reply: string): Option<Option<string>>
  {
    if |reply| >= 3 && reply[..2] == "1 " && reply[|reply| - 1] == '\n' then Some(Some(reply[2..|reply| - 1]))
    else if StartsWith(reply, "0 ") then Some(None)
    else None
  }

  /** For a lookup key, decoding the reply gives back exactly what the lookup found. */
  lemma RemoteLookupDecodes(mapfile: Option<seq<string>>, key: string, revision: RevisionLookup, origReply: string)
    requires StartsWith(key, LOOKUP_PREFIX)
    requires DoLookup(mapfile, key, revision).Success?
    ensures RemoteLookup(mapfile, key, revision, origReply).Success?
    ensures DecodeReply(RemoteLookup(mapfile, key, revision, origReply).value) ==
            Some(DoLookup(mapfile, key, revision).value)
  {
    var d := DoLookup(mapfile, key, revision);
    match d.value
    case None =>
      var reply := "0 gitlookup failed\n";
      assert RemoteLookup(mapfile, key, revision, origReply) == Success(reply);
      assert DecodeReply(reply) == Some(None) by {
        assert reply[..2] == "0 ";
      }
    case Some(v) =>
      var reply := "1 " + v + "\n";
      assert RemoteLookup(mapfile, key, revision, origReply) == Success(reply);
      assert DecodeReply(reply) == Some(Some(v)) by {
        assert reply[..2] == "1 ";
        assert reply[2..|reply| - 1] == v;
      }
  }

  /** A key with the lookup prefix but neither direction is answered as a failed lookup. */
  lemma RemoteLookupOtherPrefixedKey(mapfile: Option<seq<string>>, key: string, revision: RevisionLookup, origReply: string)
    requires StartsWith(key, LOOKUP_PREFIX) && !StartsWith(key, GIT_PREFIX) && !StartsWith(key, HG_PREFIX)
    ensures RemoteLookup(mapfile, key, revision, origReply) == Success("0 gitlookup failed\n")
  {
  }

  // ---------------------------------------------------------------------
  // _getmissinglines
  // ---------------------------------------------------------------------

  /** A map file record: a 40-char git hash, a space, a 40-char hg hash, a newline. */
  const LINE_LEN: nat := 82

  datatype Abort =
    | InvalidMapfileLength(length: nat)
    | MissingHashes
    | FilenameMissing
    | UnreadableFile(filename: string)

  function RecordCount(content: string): nat
  {
    |content| / LINE_LEN
  }

  function Record(content: string, i: nat): (line: string)
    requires i < RecordCount(content)
    ensures |line| == LINE_LEN
  {
    content[i * LINE_LEN..i * LINE_LEN + LINE_LEN]
  }

  /** The hg hash of record `i`: characters 41 to 80. */
  function RecordHash(content: string, i: nat): string
    requires i < RecordCount(content)
  {
    Record(content, i)[41..81]
  }

  /** No later record carries the same hg hash. */
  predicate LastWithHash(content: string, i: nat)
    requires i < RecordCount(content)
  {
    forall j :: i < j < RecordCount(content) ==> RecordHash(content, j) != RecordHash(content, i)
  }

  /** The hg hashes of the records from index `k` on. */
  function HashesFrom(content: string, k: nat): set<string>
  {
    set j | k <= j < RecordCount(content) :: RecordHash(content, j)
  }

  /** The records from index `k` on that are the last ones for a hash of `hashes`. */
  function LastRecordsFrom(content: string, hashes: set<string>, k: nat): set<string>
  {
    set j | k <= j < RecordCount(content) && RecordHash(content, j) in hashes && LastWithHash(content, j)
      :: Record(content, j)
  }

  /** What a successful scan returns: for each hash, the last record that carries it. */
  function MissingRecords(content: string, hashes: set<string>): set<string>
  {
    LastRecordsFrom(content, hashes, 0)
  }

  lemma HashesFromStep(content: string, i: nat)
    requires 0 < i <= RecordCount(content)
    ensures HashesFrom(content, i - 1) == HashesFrom(content, i) + {RecordHash(content, i - 1)}
  {
  }

  lemma LastWithHashIff(content: string, i: nat)
    requires i < RecordCount(content)
    ensures LastWithHash(content, i) <==> RecordHash(content, i) !in HashesFrom(content, i + 1)
  {
    if RecordHash(content, i) in HashesFrom(content, i + 1) {
      var j :| i + 1 <= j < RecordCount(content) && RecordHash(content, j) == RecordHash(content, i);
    }
  }

  lemma LastRecordsFromStep(content: string, hashes: set<string>, i: nat)
    requires 0 < i <= RecordCount(content)
    ensures LastRecordsFrom(content, hashes, i - 1) ==
            LastRecordsFrom(content, hashes, i) +
            (if RecordHash(content, i - 1) in hashes && LastWithHash(content, i - 1)
             then {Record(content, i - 1)} else {})
  {
  }

  /** Once every hash occurs from `k` on, no earlier record is the last for its hash. */
  lemma LastRecordsComplete(content: string, hashes: set<string>, k: nat)
    requires k <= RecordCount(content) && hashes <= HashesFrom(content, k)
    ensures MissingRecords(content, hashes) == LastRecordsFrom(content, hashes, k)
  {
    forall j | 0 <= j < k && RecordHash(content, j) in hashes
      ensures !LastWithHash(content, j)
    {
      var j' :| k <= j' < RecordCount(content) && RecordHash(content, j') == RecordHash(content, j);
    }
  }

  /** The scan from the end has looked at the records from `i` on. */
  ghost predicate ScanState(content: string, hashes: set<string>, i: nat, toFind: set<string>, found: set<string>)
  {
    toFind == hashes - HashesFrom(content, i) && found == LastRecordsFrom(content, hashes, i)
  }

  /** Looking at record `i - 1`: a hash still to find is found there, by its last record. */
  lemma ScanStep(content: string, hashes: set<string>, i: nat, toFind: set<string>, found: set<string>)
    requires 0 < i <= RecordCount(content)
    requires ScanState(content, hashes, i, toFind, found)
    ensures var h := RecordHash(content, i - 1);
      ScanState(content, hashes, i - 1,
                if h in toFind then toFind - {h} else toFind,
                if h in toFind then found + {Record(content, i - 1)} else found)
  {
    HashesFromStep(content, i);
    LastRecordsFromStep(content, hashes, i);
    LastWithHashIff(content, i - 1);
  }

  /**
   * _getmissinglines: an empty request gives the empty set without looking at
   * the content; a length that is not a multiple of 82 aborts; otherwise the
   * records are scanned from the end and the scan succeeds exactly when every
   * requested hash occurs, giving the last record for each.
   */
  method GetMissingLines(content: string, missingHashes: set<string>) returns (r: Result<set<string>, Abort>)
    ensures missingHashes == {} ==> r == Success({})
    ensures missingHashes != {} && |content| % LINE_LEN != 0 ==> r == Failure(InvalidMapfileLength(|content|))
    ensures missingHashes != {} && |content| % LINE_LEN == 0 ==>
      && (r.Success? <==> missingHashes <= HashesFrom(content, 0))
      && (r.Success? ==> r.value == MissingRecords(content, missingHashes))
      && (r.Failure? ==> r.error == MissingHashes)
  {
    var missingLines: set<string> := {};
    if missingHashes == {} {
      return Success(missingLines);
    }
    var hashesToFind := missingHashes;
    if |content| % LINE_LEN != 0 {
      return Failure(InvalidMapfileLength(|content|));
    }
    var count := |content| / LINE_LEN;
    var i := count;
    while i > 0
      invariant 0 <= i <= count
      invariant ScanState(content, missingHashes, i, hashesToFind, missingLines)
      invariant hashesToFind != {}
    {
      i := i - 1;
      var offset := i * LINE_LEN;
      var line := content[offset..offset + LINE_LEN];
      var hgsha := line[41..81];
      assert line == Record(content, i) && hgsha == RecordHash(content, i);
      ScanStep(content, missingHashes, i + 1, hashesToFind, missingLines);
      if hgsha in hashesToFind {
        missingLines := missingLines + {line};
        hashesToFind := hashesToFind - {hgsha};
        if hashesToFind == {} {
          assert missingHashes <= HashesFrom(content, i) by {
            assert missingHashes - HashesFrom(content, i) == hashesToFind;
          }
          LastRecordsComplete(content, missingHashes, i);
          assert HashesFrom(content, i) <= HashesFrom(content, 0);
          return Success(missingLines);
        }
      }
    }
    return Failure(MissingHashes);
  }

  /**
   * Every returned line is a whole record carrying a requested hash, each
   * requested hash that occurs has a returned line, and no two returned
   * lines carry the same hash.
   */
  lemma MissingRecordsOnePerHash(content: string, hashes: set<string>)
    ensures forall l :: l in MissingRecords(content, hashes) ==> |l| == LINE_LEN && l[41..81] in hashes
    ensures forall h :: h in hashes && h in HashesFrom(content, 0) ==>
      exists l :: l in MissingRecords(content, hashes) && l[41..81] == h
    ensures forall l1, l2 :: (l1 in MissingRecords(content, hashes) && l2 in MissingRecords(content, hashes) &&
      l1[41..81] == l2[41..81]) ==> l1 == l2
  {
    forall h | h in hashes && h in HashesFrom(content, 0)
      ensures exists l :: l in MissingRecords(content, hashes) && l[41..81] == h
    {
      var j :| 0 <= j < RecordCount(content) && RecordHash(content, j) == h;
      var last := LastIndexWithHash(content, j);
      assert Record(content, last) in MissingRecords(content, hashes);
    }
    forall l1, l2 | l1 in MissingRecords(content, hashes) && l2 in MissingRecords(content, hashes) &&
      l1[41..81] == l2[41..81]
      ensures l1 == l2
    {
      var j1 :| 0 <= j1 < RecordCount(content) && RecordHash(content, j1) in hashes &&
        LastWithHash(content, j1) && Record(content, j1) == l1;
      var j2 :| 0 <= j2 < RecordCount(content) && RecordHash(content, j2) in hashes &&
        LastWithHash(content, j2) && Record(content, j2) == l2;
      assert RecordHash(content, j1) == RecordHash(content, j2);
      assert j1 == j2;
    }
  }

  /** The last record carrying the same hash as record `j`. */
  lemma {:induction false} LastIndexWithHash(content: string, j: nat) returns (last: nat)
    requires j < RecordCount(content)
    ensures j <= last < RecordCount(content) && RecordHash(content, last) == RecordHash(content, j)
    ensures LastWithHash(content, last)
    decreases RecordCount(content) - j
  {
    if LastWithHash(content, j) {
      last := j;
    } else {
      var j' :| j < j' < RecordCount(content) && RecordHash(content, j') == RecordHash(content, j);
      last := LastIndexWithHash(content, j');
    }
  }

  // ---------------------------------------------------------------------
  // _githgmappayload
  // ---------------------------------------------------------------------

  /** The JSON values a payload dictionary holds: a flag or a list of strings. */
  datatype Value = Bool(b: bool) | StrList(items: seq<string>)

  datatype Payload = Payload(needFullSync: bool, newHeads: set<string>, missingLines: set<string>)

  datatype DictError = KeyMissing(key: string) | NotIterable(key: string)

  /**
   * _todict.  `list(s)` lists a set in an unspecified order; the model
   * lists it in ascending order, and nothing below depends on the order.
   */
  ghost function ToDict(p: Payload): map<string, Value>
  {
    map["needfullsync" := Bool(p.needFullSync),
        "newheads" := StrList(Sorted(p.newHeads)),
        "missinglines" := StrList(Sorted(p.missingLines))]
  }

  /** Python's `set(items)`. */
  function SetOf(items: seq<string>): (r: set<string>)
    ensures forall x :: x in r <==> x in items
  {
    set x | x in items
  }

  /** Python truthiness of a value. */
  function Truthy(v: Value): bool
  {
    match v
    case Bool(b) => b
    case StrList(items) => items != []
  }

  /** _fromdict: a missing key raises KeyError, `set` of a flag raises TypeError. */
  function FromDict(d: map<string, Value>): Result<Payload, DictError>
  {
    if "needfullsync" !in d then Failure(KeyMissing("needfullsync"))
    else if "newheads" !in d then Failure(KeyMissing("newheads"))
    else if !d["newheads"].StrList? then Failure(NotIterable("newheads"))
    else if "missinglines" !in d then Failure(KeyMissing("missinglines"))
    else if !d["missinglines"].StrList? then Failure(NotIterable("missinglines"))
    else Success(Payload(Truthy(d["needfullsync"]), SetOf(d["newheads"].items), SetOf(d["missinglines"].items)))
  }

  lemma FromDictToDict(p: Payload)
    ensures FromDict(ToDict(p)) == Success(p)
  {
    var d := ToDict(p);
    assert SetOf(d["newheads"].items) == p.newHeads;
    assert SetOf(d["missinglines"].items) == p.missingLines;
  }

  /** The order in which the lists arrive does not matter to _fromdict. */
  lemma FromDictIgnoresListOrder(d: map<string, Value>, key: string, items: seq<string>)
    requires key in d && d[key].StrList? && forall x :: x in items <==> x in d[key].items
    ensures FromDict(d[key := StrList(items)]) == FromDict(d)
  {
    var d' := d[key := StrList(items)];
    if key == "needfullsync" {
      assert items == [] <==> d[key].items == [] by {
        if items != [] {
          assert items[0] in d[key].items;
        }
        if d[key].items != [] {
          assert d[key].items[0] in items;
        }
      }
    }
    if key == "newheads" {
      assert SetOf(d'["newheads"].items) == SetOf(d["newheads"].items);
    }
    if key == "missinglines" {
      assert SetOf(d'["missinglines"].items) == SetOf(d["missinglines"].items);
    }
  }

  // ---------------------------------------------------------------------
  // Part parameters and the files the server sends
  // ---------------------------------------------------------------------

  const GIT_MAPFILE: string := "git-mapfile"
  const HG_HEADS_FILE: string := "git-synced-hgheads"
  const GitMetaFiles: set<string> := {GIT_MAPFILE, "git-named-branches", "git-tags", "git-remote-refs"}

  /** _validatepartparams: no filename aborts; an unknown name is skipped (false). */
  function ValidatePartParams(params: map<string, string>): (r: Result<bool, Abort>)
    ensures r.Failure? <==> "filename" !in params
    ensures r.Failure? ==> r.error == FilenameMissing
    ensures r.Success? ==> (r.value <==> params["filename"] in GitMetaFiles)
  {
    if "filename" !in params then Failure(FilenameMissing)
    else Success(params["filename"] in GitMetaFiles)
  }

  /** The git-meta files in ascending order. */
  const SortedGitMetaFiles: seq<string> := ["git-mapfile", "git-named-branches", "git-remote-refs", "git-tags"]

  /** Strings that agree up to index `k` and differ there compare by that character. */
  lemma {:induction false} StrLessAt(a: string, b: string, k: nat)
    requires k < |a| && k < |b| && a[..k] == b[..k] && a[k] < b[k]
    ensures StrLess(a, b)
    decreases k
  {
    if k > 0 {
      assert a[0] == a[..k][0] == b[..k][0] == b[0];
      assert a[1..][..k - 1] == a[1..k] == a[..k][1..];
      assert b[1..][..k - 1] == b[1..k] == b[..k][1..];
      StrLessAt(a[1..], b[1..], k - 1);
    }
  }

  lemma SortedGitMetaFilesAscending()
    ensures StrictlySorted(SortedGitMetaFiles)
  {
    var s := SortedGitMetaFiles;
    assert s[0][..4] == s[1][..4] == s[2][..4] == s[3][..4] == "git-";
    assert s[0][4] == 'm' && s[1][4] == 'n' && s[2][4] == 'r' && s[3][4] == 't';
    forall i, j | 0 <= i < j < |s| ensures StrLess(s[i], s[j]) {
      StrLessAt(s[i], s[j], 4);
    }
  }

  /** The constant is Python's `sorted(gitmetafiles)`. */
  lemma SortedGitMetaFilesIsSortedListing()
    ensures forall f :: f in SortedGitMetaFiles <==> f in GitMetaFiles
    ensures SortedGitMetaFiles == Sorted(GitMetaFiles)
  {
    SortedGitMetaFilesAscending();
    SortedListingUnique(SortedGitMetaFiles, Sorted(GitMetaFiles));
  }

  function FilesToOverwrite(onlyMapDelta: bool): set<string>
  {
    if onlyMapDelta then GitMetaFiles - {GIT_MAPFILE} else GitMetaFiles
  }

  /** The bundle capability a client sends to ask for git metadata. */
  const GITMETA_CAPABILITY := "fb_gitmeta"

  /**
   * _getbundlegitmetapart: nothing unless the client asked for git
   * metadata; otherwise one part per file to overwrite, in sorted order,
   * skipping files the server does not have.  `available` maps each
   * present file to its content.
   */
  method GitMetaParts(bundleCaps: set<string>, onlyMapDelta: bool, available: map<string, string>)
    returns (parts: seq<(string, string)>)
    ensures GITMETA_CAPABILITY !in bundleCaps ==> parts == []
    ensures StrictlySorted(Names(parts))
    ensures forall f :: f in Names(parts) <==>
      GITMETA_CAPABILITY in bundleCaps && f in FilesToOverwrite(onlyMapDelta) && f in available
    ensures forall i :: 0 <= i < |parts| ==> parts[i].0 in available && parts[i].1 == available[parts[i].0]
  {
    if GITMETA_CAPABILITY !in bundleCaps {
      return [];
    }
    SortedGitMetaFilesAscending();
    var files := SortedGitMetaFiles;
    var overwrite := FilesToOverwrite(onlyMapDelta);
    parts := [];
    for i := 0 to |files|
      invariant PartsOf(parts, files, i, overwrite, available)
    {
      var fname := files[i];
      if fname !in overwrite || fname !in available {
        PartsOfSkip(parts, files, i, overwrite, available);
        continue;
      }
      PartsOfTake(parts, files, i, overwrite, available);
      parts := parts + [(fname, available[fname])];
    }
    assert files[..|files|] == files;
  }

  /** `parts` holds, in order, the files among the first `i` of `files` that are to be sent. */
  ghost predicate PartsOf(parts: seq<(string, string)>, files: seq<string>, i: nat,
                          overwrite: set<string>, available: map<string, string>)
    requires i <= |files|
  {
    && (forall k :: 0 <= k < |parts| ==> parts[k].0 in available && parts[k].1 == available[parts[k].0])
    && (forall f :: f in Names(parts) <==> f in files[..i] && f in overwrite && f in available)
    && StrictlySorted(Names(parts))
  }

  lemma PartsOfSkip(parts: seq<(string, string)>, files: seq<string>, i: nat,
                    overwrite: set<string>, available: map<string, string>)
    requires i < |files| && PartsOf(parts, files, i, overwrite, available)
    requires files[i] !in overwrite || files[i] !in available
    ensures PartsOf(parts, files, i + 1, overwrite, available)
  {
    assert files[..i + 1] == files[..i] + [files[i]];
  }

  lemma PartsOfTake(parts: seq<(string, string)>, files: seq<string>, i: nat,
                    overwrite: set<string>, available: map<string, string>)
    requires StrictlySorted(files)
    requires i < |files| && PartsOf(parts, files, i, overwrite, available)
    requires files[i] in overwrite && files[i] in available
    ensures PartsOf(parts + [(files[i], available[files[i]])], files, i + 1, overwrite, available)
  {
    var fname := files[i];
    assert files[..i + 1] == files[..i] + [fname];
    forall f | f in Names(parts) ensures StrLess(f, fname) {
      var k :| 0 <= k < i && files[k] == f;
    }
    NamesSnoc(parts, (fname, available[fname]));
  }

  function Names(parts: seq<(string, string)>): (r: seq<string>)
    ensures |r| == |parts| && forall i :: 0 <= i < |parts| ==> r[i] == parts[i].0
  {
    if parts == [] then [] else Names(parts[..|parts| - 1]) + [parts[|parts| - 1].0]
  }

  lemma NamesSnoc(parts: seq<(string, string)>, part: (string, string))
    requires forall f :: f in Names(parts) ==> StrLess(f, part.0)
    requires StrictlySorted(Names(parts))
    ensures Names(parts + [part]) == Names(parts) + [part.0]
    ensures StrictlySorted(Names(parts + [part]))
  {
    assert (parts + [part])[..|parts|] == parts;
    var n := Names(parts + [part]);
    forall i, j | 0 <= i < j < |n| ensures StrLess(n[i], n[j]) {
      if j == |parts| {
        assert n[i] in Names(parts);
      }
    }
  }

  /**
   * The names sent to a client that asked for git metadata are the sorted
   * listing of the files to overwrite that exist.
   */
  lemma GitMetaPartNamesAreSorted(parts: seq<(string, string)>, bundleCaps: set<string>, onlyMapDelta: bool,
                                  available: map<string, string>)
    requires StrictlySorted(Names(parts))
    requires forall f :: f in Names(parts) <==>
      GITMETA_CAPABILITY in bundleCaps && f in FilesToOverwrite(onlyMapDelta) && f in available
    ensures Names(parts) ==
      if GITMETA_CAPABILITY in bundleCaps then Sorted(FilesToOverwrite(onlyMapDelta) * available.Keys) else []
  {
    if GITMETA_CAPABILITY in bundleCaps {
      SortedListingUnique(Names(parts), Sorted(FilesToOverwrite(onlyMapDelta) * available.Keys));
    } else if Names(parts) != [] {
      assert Names(parts)[0] in Names(parts);
    }
  }

  // ---------------------------------------------------------------------
  // bundle2getgithgmap and bundle2getgitmeta
  // ---------------------------------------------------------------------

  datatype HandlerError = Aborted(abort: Abort) | BadPayload(error: DictError)

  /**
   * bundle2getgithgmap on a client whose `.hg` files are `files` (each as
   * its set of lines): the new files, or the error raised.
   */
  function ReceiveGitHgMap(params: map<string, string>, d: map<string, Value>, files: map<string, set<string>>)
    : Result<map<string, set<string>>, HandlerError>
  {
    match ValidatePartParams(params)
    case Failure(a) => Failure(Aborted(a))
    case Success(false) => Success(files)
    case Success(true) =>
      var filename := params["filename"];
      match FromDict(d)
      case Failure(e) => Failure(BadPayload(e))
      case Success(data) =>
        if data.missingLines == {} then Success(files)
        else if !data.needFullSync && filename !in files then Failure(Aborted(UnreadableFile(filename)))
        else
          var newLines := if data.needFullSync then data.missingLines else files[filename] + data.missingLines;
          Success(files[filename := newLines][HG_HEADS_FILE := data.newHeads])
  }

  /** The merge outcomes for a valid part carrying a well-formed payload. */
  lemma ReceiveGitHgMapOutcomes(params: map<string, string>, d: map<string, Value>, files: map<string, set<string>>)
    requires "filename" in params && params["filename"] in GitMetaFiles && FromDict(d).Success?
    ensures var f, p := params["filename"], FromDict(d).value;
      && (p.missingLines == {} ==> ReceiveGitHgMap(params, d, files) == Success(files))
      && (p.missingLines != {} && p.needFullSync ==>
            ReceiveGitHgMap(params, d, files) == Success(files[f := p.missingLines][HG_HEADS_FILE := p.newHeads]))
      && (p.missingLines != {} && !p.needFullSync && f in files ==>
            ReceiveGitHgMap(params, d, files) ==
            Success(files[f := files[f] + p.missingLines][HG_HEADS_FILE := p.newHeads]))
      && (p.missingLines != {} && !p.needFullSync && f !in files ==>
            ReceiveGitHgMap(params, d, files) == Failure(Aborted(UnreadableFile(f))))
  {
  }

  /**
   * After a successful merge the map file holds every missing line and the
   * heads file the new heads, and no other file changes.
   */
  lemma ReceiveGitHgMapKeepsLines(params: map<string, string>, d: map<string, Value>, files: map<string, set<string>>)
    requires "filename" in params && params["filename"] in GitMetaFiles && FromDict(d).Success?
    requires FromDict(d).value.missingLines != {}
    requires ReceiveGitHgMap(params, d, files).Success?
    ensures var f, p, files' := params["filename"], FromDict(d).value, ReceiveGitHgMap(params, d, files).value;
      && f in files' && p.missingLines <= files'[f]
      && (!p.needFullSync ==> files[f] <= files'[f])
      && files'[HG_HEADS_FILE] == p.newHeads
      && forall g :: g != f && g != HG_HEADS_FILE ==> (g in files' <==> g in files) && (g in files ==> files'[g] == files[g])
  {
  }

  /** Receiving the same part twice leaves the files as receiving it once. */
  lemma ReceiveGitHgMapIdempotent(params: map<string, string>, d: map<string, Value>, files: map<string, set<string>>)
    requires ReceiveGitHgMap(params, d, files).Success?
    ensures ReceiveGitHgMap(params, d, ReceiveGitHgMap(params, d, files).value) == ReceiveGitHgMap(params, d, files)
  {
    var files' := ReceiveGitHgMap(params, d, files).value;
    if ValidatePartParams(params) == Success(true) {
      var f := params["filename"];
      var p := FromDict(d).value;
      assert f != HG_HEADS_FILE;
      if p.missingLines != {} {
        if p.needFullSync {
          assert files'[f := p.missingLines][HG_HEADS_FILE := p.newHeads] == files';
        } else {
          assert files'[f] + p.missingLines == files'[f];
          assert files'[f := files'[f] + p.missingLines][HG_HEADS_FILE := p.newHeads] == files';
        }
      }
    }
  }

  /**
   * bundle2getgitmeta: a part without a filename aborts, one naming an
   * unknown file is skipped, and a valid part replaces the named file with
   * its data; no other file changes.
   */
  function ReceiveGitMeta(params: map<string, string>, data: set<string>, files: map<string, set<string>>)
    : (r: Result<map<string, set<string>>, Abort>)
    ensures r.Failure? <==> "filename" !in params
    ensures r.Failure? ==> r.error == FilenameMissing
    ensures r.Success? && params["filename"] !in GitMetaFiles ==> r.value == files
    ensures r.Success? && params["filename"] in GitMetaFiles ==>
      params["filename"] in r.value && r.value[params["filename"]] == data
    ensures r.Success? ==> forall g :: g != params["filename"] ==>
      (g in r.value <==> g in files) && (g in files ==> r.value[g] == files[g])
  {
    match ValidatePartParams(params)
    case Failure(a) => Failure(a)
    case Success(false) => Success(files)
    case Success(true) => Success(files[params["filename"] := data])
  }

  /** Receiving the same git-meta part twice leaves the files as receiving it once. */
  lemma ReceiveGitMetaIdempotent(params: map<string, string>, data: set<string>, files: map<string, set<string>>)
    requires ReceiveGitMeta(params, data, files).Success?
    ensures ReceiveGitMeta(params, data, ReceiveGitMeta(params, data, files).value) == ReceiveGitMeta(params, data, files)
  {
    var files' := ReceiveGitMeta(params, data, files).value;
    if params["filename"] in GitMetaFiles {
      assert files'[params["filename"] := data] == files';
    }
  }
}

/** The catalog service: the `/api/pdfs` catalog, the `/api/pdf/:filename` byte route and the
    `/api/consent` sink, with the file system and the clock given as inputs. */
module Server {
  import opened Wrappers
  import opened Catalog
  import opened Text

  /** One configured group: its name and the file names it should hold, in review order. */
  datatype GroupConfig = GroupConfig(name: string, files: seq<string>)

  /** The grouping the server is configured with, in declaration order. */
  const PdfGroups: seq<GroupConfig> := [
    GroupConfig("Group 1", ["1.pdf", "2.pdf"]),
    GroupConfig("Group 2", ["3.pdf", "4.pdf"]),
    GroupConfig("Group 3", ["5.pdf"])
  ]

  const PdfSuffix: string := ".pdf"
  const PdfRoute: string := "/api/pdf/"

  /** The `.pdf` entries of a directory listing. */
  function AvailableFiles(listing: seq<string>): (available: set<string>)
    ensures forall f :: f in available ==> f in listing && EndsWith(f, PdfSuffix)
    ensures forall i :: 0 <= i < |listing| && EndsWith(listing[i], PdfSuffix) ==> listing[i] in available
  {
    set f | f in listing && EndsWith(f, PdfSuffix)
  }

  /** `path.basename(file, '.pdf')` for a name without `/`: the suffix is stripped, except that
      a name equal to the suffix yields the empty string. */
  function BaseName(file: string): (base: string)
    ensures EndsWith(file, PdfSuffix) && file != PdfSuffix ==> base + PdfSuffix == file
    ensures !EndsWith(file, PdfSuffix) ==> base == file
    ensures file == PdfSuffix ==> base == ""
    ensures |base| <= |file|
  {
    if file == PdfSuffix then ""
    else if EndsWith(file, PdfSuffix) then file[..|file| - |PdfSuffix|]
    else file
  }

  /** The descriptor the catalog gives a file. */
  function Describe(file: string): (d: FileDesc)
    ensures d.name == file && d.url == PdfRoute + file
    ensures EndsWith(file, PdfSuffix) && |file| > |PdfSuffix| ==> d.id + PdfSuffix == file
    ensures file == PdfSuffix ==> d.id == ""
  {
    FileDesc(BaseName(file), file, PdfRoute + file)
  }

  /** The configured names that are present, in configured order (`filter`). */
  function KeepAvailable(configured: seq<string>, available: set<string>): (kept: seq<string>)
    ensures |kept| <= |configured|
    ensures forall f :: f in kept <==> f in configured && f in available
  {
    if configured == [] then []
    else (if configured[0] in available then [configured[0]] else [])
         + KeepAvailable(configured[1..], available)
  }

  /** Filtering distributes over concatenation: what is kept stays in configured order. */
  lemma {:induction false} KeepAvailableAppend(a: seq<string>, b: seq<string>, available: set<string>)
    ensures KeepAvailable(a + b, available) == KeepAvailable(a, available) + KeepAvailable(b, available)
  {
    if a == [] {
      assert a + b == b;
    } else {
      assert (a + b)[1..] == a[1..] + b;
      KeepAvailableAppend(a[1..], b, available);
    }
  }

  /** When every configured name is present, the group is returned whole. */
  lemma {:induction false} KeepAvailableAll(configured: seq<string>, available: set<string>)
    requires forall f :: f in configured ==> f in available
    ensures KeepAvailable(configured, available) == configured
  {
    if configured != [] {
      KeepAvailableAll(configured[1..], available);
    }
  }

  /** The file list of one group (`filter` then `map`). */
  function GroupFiles(configured: seq<string>, available: set<string>): (files: seq<FileDesc>)
    ensures Names(files) == KeepAvailable(configured, available)
    ensures forall d :: d in files ==> d.name in configured && d.name in available && d == Describe(d.name)
  {
    var kept := KeepAvailable(configured, available);
    var files := seq(|kept|, i requires 0 <= i < |kept| => Describe(kept[i]));
    assert forall d :: d in files ==> exists i :: 0 <= i < |kept| && d == Describe(kept[i]);
    files
  }

  /** The body of the `/api/pdfs` handler once the directory has been read. */
  function BuildCatalog(config: seq<GroupConfig>, listing: seq<string>): (groups: seq<Group>)
    ensures |groups| == |config|
    ensures forall i :: 0 <= i < |config| ==>
      && groups[i].name == config[i].name
      && Names(groups[i].files) == KeepAvailable(config[i].files, AvailableFiles(listing))
    ensures forall i, d :: 0 <= i < |config| && d in groups[i].files ==>
      && d.name in config[i].files
      && d.name in listing
      && EndsWith(d.name, PdfSuffix)
      && d.url == PdfRoute + d.name
      && (|d.name| > |PdfSuffix| ==> d.id + PdfSuffix == d.name)
  {
    var available := AvailableFiles(listing);
    seq(|config|, i requires 0 <= i < |config| =>
      Group(config[i].name, GroupFiles(config[i].files, available)))
  }

  /** The `/api/pdfs` handler. `listing` is `None` when reading the directory throws. */
  function CatalogRoute(dirExists: bool, listing: Option<seq<string>>, config: seq<GroupConfig>)
    : (reply: HttpReply<CatalogJson>)
    ensures reply.status == 200 <==> dirExists && listing.Some?
    ensures reply.status != 200 ==> reply.status == 500 && reply.body.groups.None? && reply.body.error.Some?
    ensures reply.status == 200 ==>
      reply.body == CatalogJson(Some(BuildCatalog(config, listing.value)), None, None, None)
  {
    if !dirExists then
      HttpReply(500, CatalogJson(None, None, Some("PDF directory not found"),
                                 Some("The pdfs directory does not exist")))
    else if listing.None? then
      HttpReply(500, CatalogJson(None, None, Some("Failed to get PDF list"), None))
    else
      HttpReply(200, CatalogJson(Some(BuildCatalog(config, listing.value)), None, None, None))
  }

  /** What `/api/pdf/:filename` sends: the file's bytes, or a JSON error. */
  datatype PdfBody = PdfBytes(contentType: string, file: string) | JsonError(error: string)

  /** The `/api/pdf/:filename` handler; `existing` is the set of entries of the pdfs directory. */
  function ServePdf(filename: string, existing: set<string>): (reply: HttpReply<PdfBody>)
    ensures reply.status == 404 <==> filename !in existing
    ensures reply.status != 404 ==>
      reply.status == 200 && reply.body == PdfBytes("application/pdf", filename)
  {
    if filename !in existing then HttpReply(404, JsonError("PDF not found"))
    else HttpReply(200, PdfBytes("application/pdf", filename))
  }

  /** The `:filename` parameter a request path binds under `/api/pdf/`: one non-empty segment. */
  function RouteFilename(path: string): (filename: Option<string>)
    ensures filename.Some? ==> PdfRoute + filename.value == path && '/' !in filename.value
  {
    if |path| > |PdfRoute| && path[..|PdfRoute|] == PdfRoute && '/' !in path[|PdfRoute|..]
    then Some(path[|PdfRoute|..])
    else None
  }

  /** A file-system path as its segments below the root, for POSIX `path` functions. */
  type Path = seq<string>

  const PdfDir: string := "pdfs"

  /** A segment that names an entry of a directory: non-empty, no `/`, not `.` or `..`. */
  predicate PlainSegment(s: string)
  {
    s != [] && s != "." && s != ".." && '/' !in s
  }

  /** Every path the file system holds is made of plain segments. */
  predicate WellFormedFs(fs: set<Path>)
  {
    forall p, i :: p in fs && 0 <= i < |p| ==> PlainSegment(p[i])
  }

  /** `s.split('/')`. */
  function SplitSlash(s: string): (parts: seq<string>)
    ensures |parts| >= 1
    ensures forall i :: 0 <= i < |parts| ==> '/' !in parts[i]
    ensures '/' !in s ==> parts == [s]
  {
    if s == [] then [[]]
    else if s[0] == '/' then [[]] + SplitSlash(s[1..])
    else
      var rest := SplitSlash(s[1..]);
      assert [s[0]] + s[1..] == s;
      [[s[0]] + rest[0]] + rest[1..]
  }

  /** `path.join(dir, ...parts)` below a normalised `dir`: empty and `.` segments are dropped
      and `..` removes the last segment, never going above the root. */
  function JoinPath(dir: Path, parts: seq<string>): (p: Path)
    ensures (forall i :: 0 <= i < |parts| ==> PlainSegment(parts[i])) ==> p == dir + parts
    ensures (&& (forall i :: 0 <= i < |dir| ==> PlainSegment(dir[i]))
             && (forall i :: 0 <= i < |parts| ==> '/' !in parts[i])) ==>
      forall i :: 0 <= i < |p| ==> PlainSegment(p[i])
    decreases |parts|
  {
    if parts == [] then dir
    else if parts[0] == [] || parts[0] == "." then JoinPath(dir, parts[1..])
    else if parts[0] == ".." then JoinPath(if dir == [] then [] else dir[..|dir| - 1], parts[1..])
    else
      var p := JoinPath(dir + [parts[0]], parts[1..]);
      assert [parts[0]] + parts[1..] == parts;
      p
  }

  /** `path.join(__dirname, 'pdfs', filename)`, with the server's directory at `root`. */
  function PdfPath(root: Path, filename: string): Path
  {
    JoinPath(root + [PdfDir], SplitSlash(filename))
  }

  /** A plain name joins to the entry of that name inside `pdfs`. */
  lemma PdfPathOfPlain(root: Path, filename: string)
    ensures PlainSegment(filename) ==> PdfPath(root, filename) == root + [PdfDir, filename]
  {
    if PlainSegment(filename) {
      assert SplitSlash(filename) == [filename];
      assert root + [PdfDir] + [filename] == root + [PdfDir, filename];
    }
  }

  /** The `/api/pdf/:filename` handler as written, on the parameter as Express decodes it: the
      file read is `path.join(__dirname, 'pdfs', filename)` wherever that lands, and the reply
      is 404 only when nothing exists there. `fs` holds the paths that exist. */
  function ServePdfAsWritten(root: Path, filename: string, fs: set<Path>): (reply: HttpReply<Option<Path>>)
    ensures reply.status == 404 <==> reply.body.None?
    ensures reply.body.Some? ==> reply.status == 200 && reply.body.value in fs
    ensures PlainSegment(filename) ==>
      (reply.status == 200 <==> root + [PdfDir, filename] in fs)
  {
    var p := PdfPath(root, filename);
    PdfPathOfPlain(root, filename);
    if p !in fs then HttpReply(404, None) else HttpReply(200, Some(p))
  }

  /** `p` lies inside the directory `dir`. */
  predicate InDirectory(dir: Path, p: Path)
  {
    |dir| < |p| && p[..|dir|] == dir
  }

  /** The handler as written reads outside `pdfs`: for any file `n` beside that directory,
      the decoded parameter `../n` (sent as `/api/pdf/..%2Fn`) is answered 200 with that file,
      where the handler that only serves entries of `pdfs` answers 404. */
  lemma ServePdfAsWrittenEscapes(root: Path, n: string, fs: set<Path>, existing: set<string>)
    requires WellFormedFs(fs)
    requires PlainSegment(n) && root + [n] in fs
    requires forall m :: m in existing <==> root + [PdfDir, m] in fs
    ensures var reply := ServePdfAsWritten(root, "../" + n, fs);
      && reply.status == 200 && reply.body == Some(root + [n])
      && !InDirectory(root + [PdfDir], reply.body.value)
    ensures ServePdf("../" + n, existing).status == 404
  {
    EscapeSplit(n);
    var parts := SplitSlash("../" + n);
    assert parts[1..] == [n];
    assert JoinPath(root, [n]) == root + [n];
    assert (root + [PdfDir])[..|root + [PdfDir]| - 1] == root;
    assert (root + [n])[|root|] == n;
    var escaping := "../" + n;
    assert escaping[2] == '/';
    if escaping in existing {
      assert (root + [PdfDir, escaping])[|root| + 1] == escaping;
    }
  }

  lemma EscapeSplit(n: string)
    requires '/' !in n
    ensures SplitSlash("../" + n) == ["..", n]
  {
    var s := "../" + n;
    assert s[1..] == "./" + n;
    assert s[1..][1..] == "/" + n;
    assert s[1..][1..][1..] == n;
    assert SplitSlash("/" + n) == ["", n];
    assert ("./" + n)[0] == '.' && ['.'] + "" == ".";
    assert SplitSlash("./" + n) == [".", n];
    assert ['.'] + "." == "..";
  }

  /** The instance served from the repository: `/api/pdf/..%2Fserver.js` sends `server.js`. */
  lemma ServerSourceIsServed()
    ensures var reply := ServePdfAsWritten(["srv"], "../server.js", {["srv", "server.js"]});
      reply.status == 200 && reply.body == Some(["srv", "server.js"])
  {
    var n := "server.js";
    assert PlainSegment(n);
    assert "../" + n == "../server.js";
    assert ["srv"] + [n] == ["srv", "server.js"];
    ServePdfAsWrittenEscapes(["srv"], n, {["srv", "server.js"]}, {});
  }

  /** `ServePdf`, given the entries of the `pdfs` directory, only ever reads a file directly
      inside that directory, and agrees with the handler as written on every plain name. */
  lemma ServePdfConfined(root: Path, filename: string, fs: set<Path>, existing: set<string>)
    requires WellFormedFs(fs)
    requires forall n :: n in existing <==> root + [PdfDir, n] in fs
    ensures ServePdf(filename, existing).status == 200 ==>
      && PlainSegment(filename)
      && PdfPath(root, filename) == root + [PdfDir, filename]
      && InDirectory(root + [PdfDir], PdfPath(root, filename))
      && PdfPath(root, filename) in fs
    ensures PlainSegment(filename) ==>
      ServePdf(filename, existing).status == ServePdfAsWritten(root, filename, fs).status
  {
    PdfPathOfPlain(root, filename);
    if filename in existing {
      var p := root + [PdfDir, filename];
      assert p[|root| + 1] == filename;
      assert p[..|root| + 1] == root + [PdfDir];
    }
  }

  /** `timestamp.replace(/[:.]/g, '-')`. */
  function DashSeparators(timestamp: string): (r: string)
    ensures |r| == |timestamp|
    ensures forall i :: 0 <= i < |r| ==>
      r[i] == (if timestamp[i] == ':' || timestamp[i] == '.' then '-' else timestamp[i])
  {
    if timestamp == [] then []
    else [if timestamp[0] == ':' || timestamp[0] == '.' then '-' else timestamp[0]]
         + DashSeparators(timestamp[1..])
  }

  const ConsentPrefix: string := "consent_"
  const ConsentExtension: string := ".json"

  /** The name of the file a consent record is written to. */
  function ConsentLogFileName(timestamp: string): (name: string)
    ensures |name| == |ConsentPrefix| + |timestamp| + |ConsentExtension|
    ensures name[..|ConsentPrefix|] == ConsentPrefix
    ensures EndsWith(name, ConsentExtension)
    ensures forall i :: |ConsentPrefix| <= i < |name| - |ConsentExtension| ==>
      name[i] != ':' && name[i] != '.'
      && (timestamp[i - |ConsentPrefix|] !in {':', '.'} ==> name[i] == timestamp[i - |ConsentPrefix|])
  {
    ConsentPrefix + DashSeparators(timestamp) + ConsentExtension
  }

  /** Two timestamps with the same separators in the same places, as `toISOString` always
      produces them. */
  predicate SameSeparators(t1: string, t2: string)
  {
    |t1| == |t2| && forall i :: 0 <= i < |t1| && (t1[i] in {':', '.'} || t2[i] in {':', '.'}) ==> t1[i] == t2[i]
  }

  /** Distinct timestamps of the same layout are logged to distinct files. */
  lemma ConsentLogFileNameInjective(t1: string, t2: string)
    requires SameSeparators(t1, t2)
    requires ConsentLogFileName(t1) == ConsentLogFileName(t2)
    ensures t1 == t2
  {
    var n1, n2 := ConsentLogFileName(t1), ConsentLogFileName(t2);
    forall i | 0 <= i < |t1| ensures t1[i] == t2[i] {
      assert n1[|ConsentPrefix| + i] == n2[|ConsentPrefix| + i];
    }
  }

  /** The replacement loses information: in general two timestamps can share a log file. */
  lemma ConsentLogFileNameCollides()
    ensures "00:00" != "00-00" && ConsentLogFileName("00:00") == ConsentLogFileName("00-00")
  {
    assert DashSeparators("00:00") == "00-00";
    assert DashSeparators("00-00") == "00-00";
  }

  /** What `/api/consent` answers. */
  datatype ConsentBody = Recorded(message: string, timestamp: string) | Failed(error: string)

  /** The reply and the log file written, if any. */
  datatype ConsentOutcome = ConsentOutcome(reply: HttpReply<ConsentBody>, logFile: Option<string>)

  /** The `/api/consent` handler; `stored` says whether creating the log directory and writing
      the file succeed. */
  function RecordConsent(timestamp: string, stored: bool): (out: ConsentOutcome)
    ensures stored <==> out.reply.status == 200
    ensures stored ==> out.reply.body == Recorded("Consent recorded successfully", timestamp)
                       && out.logFile == Some(ConsentLogFileName(timestamp))
    ensures !stored ==> out.reply.status == 500 && out.logFile.None?
  {
    if stored then
      ConsentOutcome(HttpReply(200, Recorded("Consent recorded successfully", timestamp)),
                     Some(ConsentLogFileName(timestamp)))
    else
      ConsentOutcome(HttpReply(500, Failed("Failed to record consent")), None)
  }
}

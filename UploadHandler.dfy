/** The file name chosen by `save_uploaded_file` (backend/doc_analyser/upload_hander.py:11-34):
    a caller's name is used as it is; otherwise the upload's own name is split into
    stem and extension, the stem is sanitised, and a timestamp and the head of a uuid
    are appended.  The clock and the uuid are parameters; writing the file is not
    modelled. */
module UploadHandler {
  import opened Strings
  import opened SearchText

  /** `c.isalnum() or c in (" ", ".", "_")`: the characters the sanitiser keeps. */
  predicate SafeChar(c: char)
  {
    IsAlnum(c) || c == ' ' || c == '.' || c == '_'
  }

  /** The generator expression of upload_hander.py:22-23: every character is kept when
      safe and becomes '_' otherwise, one for one. */
  function Sanitize(name: string): (r: string)
    ensures |r| == |name|
    ensures forall i :: 0 <= i < |r| ==> SafeChar(r[i])
    ensures forall i :: 0 <= i < |r| ==> (r[i] == name[i] <==> SafeChar(name[i]))
  {
    seq(|name|, i requires 0 <= i < |name| => if SafeChar(name[i]) then name[i] else '_')
  }

  /** `safe_name` (upload_hander.py:22-24): the sanitised stem without its trailing
      whitespace. */
  function SafeName(name: string): (r: string)
    ensures |r| <= |name| && r == Sanitize(name)[..|r|]
    ensures forall i :: 0 <= i < |r| ==> SafeChar(r[i])
    ensures r == [] || !IsSpace(r[|r| - 1])
    ensures forall i :: |r| <= i < |name| ==> Sanitize(name)[i] == ' '
  {
    var s := Sanitize(name);
    var r := TrimEnd(s);
    assert forall i :: |r| <= i < |s| ==> IsSpace(s[i]) by {
      forall i | |r| <= i < |s| ensures IsSpace(s[i]) {
        assert s[i] == s[|r|..][i - |r|];
      }
    }
    r
  }

  /** A safe name is its own safe name. */
  lemma SafeNameIdempotent(name: string)
    ensures SafeName(SafeName(name)) == SafeName(name)
  {
    var r := SafeName(name);
    assert Sanitize(r) == r;
    assert TrimEndIndex(r, |r|) == |r|;
  }

  /** A name made only of safe characters and not ending in whitespace is left as it is,
      so these are exactly the names the sanitiser can produce. */
  lemma SafeNameFixesSafe(name: string)
    requires forall i :: 0 <= i < |name| ==> SafeChar(name[i])
    requires name == [] || !IsSpace(name[|name| - 1])
    ensures SafeName(name) == name
  {
    assert Sanitize(name) == name;
    assert TrimEndIndex(name, |name|) == |name|;
  }

  // ---------------------------------------------------------------------------
  // os.path.splitext and os.path.join on POSIX

  /** The last position below `j` holding `c`, or -1: `str.rfind`. */
  function LastIndexOf(p: string, c: char, j: nat): (r: int)
    requires j <= |p|
    ensures -1 <= r < j
    ensures r >= 0 ==> p[r] == c
    ensures forall k :: r < k < j ==> p[k] != c
    decreases j
  {
    if j == 0 then -1 else if p[j - 1] == c then j - 1 else LastIndexOf(p, c, j - 1)
  }

  /** Python's `os.path.splitext` on POSIX: the last dot of the last path component
      starts the extension, unless everything before it in that component is dots.
      The stem and the extension concatenate back to the name. */
  function SplitExt(p: string): (r: (string, string))
    ensures r.0 + r.1 == p
    ensures r.1 == [] || r.1[0] == '.'
    ensures forall k :: 1 <= k < |r.1| ==> r.1[k] != '.' && r.1[k] != '/'
  {
    var s := LastIndexOf(p, '/', |p|);
    var d := LastIndexOf(p, '.', |p|);
    if d > s && !(forall k :: s + 1 <= k < d ==> p[k] == '.') then
      assert p[..d] + p[d..] == p;
      (p[..d], p[d..])
    else
      (p, [])
  }

  /** The extension is split off exactly when a dot lies in the last component after
      some character other than a dot. */
  lemma SplitExtFindsExtension(p: string)
    ensures SplitExt(p).1 != [] <==>
      (exists i, d :: 0 <= i < d < |p| && p[d] == '.' && p[i] != '.' && (forall k :: i <= k < |p| ==> p[k] != '/'))
  {
    var s := LastIndexOf(p, '/', |p|);
    var d := LastIndexOf(p, '.', |p|);
    if SplitExt(p).1 != [] {
      var i :| s + 1 <= i < d && p[i] != '.';
      assert 0 <= i < d < |p| && p[d] == '.' && p[i] != '.' && (forall k :: i <= k < |p| ==> p[k] != '/');
    }
    if exists i, d' :: 0 <= i < d' < |p| && p[d'] == '.' && p[i] != '.' && (forall k :: i <= k < |p| ==> p[k] != '/') {
      var i, d' :| 0 <= i < d' < |p| && p[d'] == '.' && p[i] != '.' && (forall k :: i <= k < |p| ==> p[k] != '/');
      assert d' <= d && s < i;
      assert s + 1 <= i < d && p[i] != '.';
    }
  }

  /** The splits the handler meets: a plain extension and a double one ... */
  lemma SplitExtExamples()
    ensures SplitExt("report.pdf") == ("report", ".pdf")
    ensures SplitExt("a.tar.gz") == ("a.tar", ".gz")
  {
    assert LastIndexOf("report.pdf", '.', 10) == 6;
    assert "report.pdf"[6..] == ".pdf" && "report.pdf"[..6] == "report";
    assert LastIndexOf("a.tar.gz", '.', 8) == 5;
    assert "a.tar.gz"[5..] == ".gz" && "a.tar.gz"[..5] == "a.tar";
  }

  /** ... and, without an extension, a hidden file and the default name. */
  lemma SplitExtNoExtension()
    ensures SplitExt(".env") == (".env", "")
    ensures SplitExt("unknown_file") == ("unknown_file", "")
  {
    assert LastIndexOf(".env", '.', 4) == 0;
  }

  /** Python's `os.path.join(a, b)` on POSIX for two parts: an absolute `b` replaces `a`. */
  function PathJoin(a: string, b: string): (r: string)
    ensures StartsWith(b, "/") ==> r == b
    ensures !StartsWith(b, "/") ==> r == (if a == [] || a[|a| - 1] == '/' then a + b else a + "/" + b)
    ensures |r| >= |b| && r[|r| - |b|..] == b
    ensures !StartsWith(b, "/") ==> |r| >= |a| && r[..|a|] == a
  {
    if StartsWith(b, "/") then b
    else if a == [] || a[|a| - 1] == '/' then a + b
    else a + "/" + b
  }

  // ---------------------------------------------------------------------------
  // save_uploaded_file

  const UnknownFile: string := "unknown_file"
  const DefaultExt: string := ".dat"

  predicate IsHexDigit(c: char)
  {
    '0' <= c <= '9' || 'a' <= c <= 'f'
  }

  /** `ext if ext else '.dat'`. */
  function ExtOrDefault(ext: string): (r: string)
    requires ext == [] || ext[0] == '.'
    ensures |r| >= 1 && r[0] == '.'
    ensures ext != [] ==> r == ext
  {
    if ext != [] then ext else DefaultExt
  }

  /** The name built at upload_hander.py:26-28 from the upload's own name `original`,
      `int(time.time())` and `uuid4().hex`. */
  function GeneratedName(original: string, timestamp: int, uuidHex: string): string
  {
    var parts := SplitExt(original);
    SafeName(parts.0) + "_" + IntToString(timestamp) + "_" + Take(uuidHex, 8) + ExtOrDefault(parts.1)
  }

  /** `save_uploaded_file`'s path (upload_hander.py:16-30).  `uploadName` is the
      upload's `name` attribute, if it has one; an empty `filename` stands for a
      missing one. */
  function SavePath(tempDir: string, uploadName: Option<string>, filename: string,
                    timestamp: int, uuidHex: string): (path: string)
    ensures filename != "" ==> path == PathJoin(tempDir, filename)
    ensures filename == "" && uploadName == None ==>
      path == PathJoin(tempDir, GeneratedName(UnknownFile, timestamp, uuidHex))
    ensures filename == "" && uploadName.Some? ==>
      path == PathJoin(tempDir, GeneratedName(uploadName.value, timestamp, uuidHex))
  {
    var chosen :=
      if filename != "" then filename
      else GeneratedName(if uploadName.Some? then uploadName.value else UnknownFile, timestamp, uuidHex);
    PathJoin(tempDir, chosen)
  }

  /** Where the four fields of a generated name sit: `stem`, '_', `ts`, '_', eight
      hex digits, `ext`. */
  predicate NameLayout(g: string, stem: string, ts: string, ext: string)
  {
    && |g| == |stem| + |ts| + 10 + |ext|
    && g[..|stem|] == stem && g[|stem|] == '_'
    && g[|stem| + 1..|stem| + 1 + |ts|] == ts
    && g[|stem| + 1 + |ts|] == '_'
    && (forall k :: |stem| + 2 + |ts| <= k < |stem| + 10 + |ts| ==> IsHexDigit(g[k]))
    && g[|g| - |ext|..] == ext
  }

  /** The generated name is the safe stem, "_", the timestamp, "_", eight hex digits
      of the uuid and the extension (".dat" when there is none); the timestamp field
      reads back as the timestamp. */
  lemma GeneratedNameFields(original: string, timestamp: nat, uuidHex: string)
    requires |uuidHex| == 32 && forall i :: 0 <= i < 32 ==> IsHexDigit(uuidHex[i])
    ensures var parts := SplitExt(original);
      var ts := NatToString(timestamp);
      && NameLayout(GeneratedName(original, timestamp, uuidHex), SafeName(parts.0), ts, ExtOrDefault(parts.1))
      && AllDigits(ts) && DecimalValue(ts) == timestamp
    ensures var n := |SafeName(SplitExt(original).0)| + |NatToString(timestamp)|;
      GeneratedName(original, timestamp, uuidHex)[n + 2..n + 10] == uuidHex[..8]
  {
    var parts := SplitExt(original);
    var stem, ts := SafeName(parts.0), NatToString(timestamp);
    var id := Take(uuidHex, 8);
    var ext := ExtOrDefault(parts.1);
    NatToStringDigits(timestamp);
    assert |id| == 8 && forall i :: 0 <= i < 8 ==> IsHexDigit(id[i]);
    assert GeneratedName(original, timestamp, uuidHex) == stem + "_" + ts + "_" + id + ext;
    NameFields(stem, ts, id, ext);
  }

  lemma NameFields(stem: string, ts: string, id: string, ext: string)
    requires |id| == 8 && forall i :: 0 <= i < 8 ==> IsHexDigit(id[i])
    ensures NameLayout(stem + "_" + ts + "_" + id + ext, stem, ts, ext)
  {
    var g := stem + "_" + ts + "_" + id + ext;
    var b := |stem| + 2 + |ts|;
    assert g[..|stem|] == stem;
    assert g[|stem| + 1..|stem| + 1 + |ts|] == ts;
    forall k | b <= k < b + 8 ensures IsHexDigit(g[k]) {
      assert g[k] == id[k - b];
    }
    assert g[|g| - |ext|..] == ext;
  }

  /** A generated name is one path component: it holds no '/', so the file lands
      directly in the temporary directory. */
  lemma GeneratedNameStaysInDir(tempDir: string, uploadName: Option<string>,
                                timestamp: int, uuidHex: string)
    requires tempDir != [] && tempDir[|tempDir| - 1] != '/'
    requires forall i :: 0 <= i < |uuidHex| ==> IsHexDigit(uuidHex[i])
    ensures var path := SavePath(tempDir, uploadName, "", timestamp, uuidHex);
      && |path| > |tempDir| && path[..|tempDir| + 1] == tempDir + "/"
      && forall k :: |tempDir| + 1 <= k < |path| ==> path[k] != '/'
  {
    var original := if uploadName.Some? then uploadName.value else UnknownFile;
    GeneratedNameNoSlash(original, timestamp, uuidHex);
    JoinComponent(tempDir, GeneratedName(original, timestamp, uuidHex));
  }

  lemma GeneratedNameNoSlash(original: string, timestamp: int, uuidHex: string)
    requires forall i :: 0 <= i < |uuidHex| ==> IsHexDigit(uuidHex[i])
    ensures var g := GeneratedName(original, timestamp, uuidHex);
      g != [] && forall k :: 0 <= k < |g| ==> g[k] != '/'
  {
    var g := GeneratedName(original, timestamp, uuidHex);
    var parts := SplitExt(original);
    var stem, ts, id := SafeName(parts.0), IntToString(timestamp), Take(uuidHex, 8);
    var ext := ExtOrDefault(parts.1);
    IntToStringNoSlash(timestamp);
    assert g == stem + "_" + ts + "_" + id + ext;
    forall k | 0 <= k < |g| ensures g[k] != '/' {
      NoSlashIn(stem, ts, id, ext, k);
    }
  }

  /** Joining a non-empty name without '/' to a directory not ending in '/'. */
  lemma JoinComponent(dir: string, g: string)
    requires dir != [] && dir[|dir| - 1] != '/'
    requires g != [] && forall k :: 0 <= k < |g| ==> g[k] != '/'
    ensures var path := PathJoin(dir, g);
      && path == dir + "/" + g
      && |path| > |dir| && path[..|dir| + 1] == dir + "/"
      && forall k :: |dir| + 1 <= k < |path| ==> path[k] != '/'
  {
    assert g[..1][0] == g[0] != '/';
    var path := dir + "/" + g;
    assert path[..|dir| + 1] == dir + "/";
    forall k | |dir| + 1 <= k < |path| ensures path[k] != '/' {
      assert path[k] == g[k - |dir| - 1];
    }
  }

  lemma IntToStringNoSlash(n: int)
    ensures forall k :: 0 <= k < |IntToString(n)| ==> IntToString(n)[k] != '/'
  {
    if n < 0 {
      NatToStringDigits(-n);
      forall k | 0 <= k < |IntToString(n)| ensures IntToString(n)[k] != '/' {
        if k > 0 {
          assert IntToString(n)[k] == NatToString(-n)[k - 1];
        }
      }
    } else {
      NatToStringDigits(n);
    }
  }

  lemma NoSlashIn(stem: string, ts: string, id: string, ext: string, k: nat)
    requires forall i :: 0 <= i < |stem| ==> SafeChar(stem[i])
    requires forall i :: 0 <= i < |ts| ==> ts[i] != '/'
    requires forall i :: 0 <= i < |id| ==> IsHexDigit(id[i])
    requires ext == [] || ext[0] == '.'
    requires forall i :: 1 <= i < |ext| ==> ext[i] != '/'
    requires k < |stem + "_" + ts + "_" + id + ext|
    ensures (stem + "_" + ts + "_" + id + ext)[k] != '/'
  {
    var g := stem + "_" + ts + "_" + id + ext;
    if k < |stem| {
      assert g[k] == stem[k];
    } else if k == |stem| || k == |stem| + 1 + |ts| {
    } else if k <= |stem| + |ts| {
      assert g[k] == ts[k - |stem| - 1];
    } else if k < |stem| + 2 + |ts| + |id| {
      assert g[k] == id[k - |stem| - 2 - |ts|];
    } else {
      assert g[k] == ext[k - |stem| - 2 - |ts| - |id|];
    }
  }
}

/**
 * The crawler's scope guard and local-path derivation: `sanitize_filename`,
 * `get_filename_from_cd`, `get_local_path` and `is_subpath`.
 *
 * A URL reaches `get_local_path` as the network location and raw path that
 * `Urls.Parse` extracts from it; percent-decoding is `Urls.Unquote`.
 */
module ScopeGuard {
  import opened Util
  import opened PyText
  import opened Urls

  /** The characters `sanitize_filename` replaces: `< > : " / \ | ? *` */
  const Reserved: set<char> := {'<', '>', ':', '"', '/', '\\', '|', '?', '*'}

  /** What an empty name sanitizes to. */
  const UnknownFile: string := "unknown_file"

  /** The filename used for URLs whose base name has no `.`. */
  const FallbackFilename: string := "index_doc.pdf"

  /** A character that may appear in a sanitized name. */
  predicate SafeChar(c: char) {
    c != '\0' && c !in Reserved
  }

  predicate SafeName(s: string) {
    forall i :: 0 <= i < |s| ==> SafeChar(s[i])
  }

  // ---------------------------------------------------------------------------
  // sanitize_filename
  // ---------------------------------------------------------------------------

  /** `name.replace('\0', '')` */
  function RemoveNul(s: string): (r: string)
    ensures |r| == |s| - multiset(s)['\0']
    ensures Lacks(r, '\0')
    ensures multiset(r) == multiset(s)['\0' := 0]
    ensures multiset(s)['\0'] == 0 ==> r == s
  {
    if s == [] then []
    else
      assert s == [s[0]] + s[1..];
      if s[0] == '\0' then RemoveNul(s[1..]) else [s[0]] + RemoveNul(s[1..])
  }

  /** `re.sub(r'[<>:"/\\|?*]', '_', name)`: each reserved character becomes `_`, one for one. */
  function ReplaceReserved(s: string): (r: string)
    ensures |r| == |s|
    ensures forall i :: 0 <= i < |s| ==> r[i] == (if s[i] in Reserved then '_' else s[i])
  {
    if s == [] then [] else [if s[0] in Reserved then '_' else s[0]] + ReplaceReserved(s[1..])
  }

  /**
   * `sanitize_filename`: the empty name becomes "unknown_file"; otherwise every NUL is
   * dropped and every reserved character is replaced by `_`, so the length shrinks by
   * exactly the number of NULs and no unsafe character remains. The emptiness test comes
   * before NUL removal, so a name made only of NULs sanitizes to the empty string.
   */
  function SanitizeFilename(name: string): (r: string)
    ensures name == [] ==> r == UnknownFile
    ensures name != [] ==> |r| == |name| - multiset(name)['\0']
    ensures SafeName(r)
  {
    if name == [] then UnknownFile else ReplaceReserved(RemoveNul(name))
  }

  lemma SafeNameHasNoSlash(s: string)
    requires SafeName(s)
    ensures '/' !in s
  {
    forall i | 0 <= i < |s| ensures s[i] != '/' {
      assert SafeChar(s[i]);
    }
  }

  /** A name that is already safe and non-empty is left alone. */
  lemma SanitizeKeepsSafeName(name: string)
    requires name != [] && SafeName(name)
    ensures SanitizeFilename(name) == name
  {
    assert '\0' !in name by {
      forall i | 0 <= i < |name| ensures name[i] != '\0' { assert SafeChar(name[i]); }
    }
    var r := ReplaceReserved(name);
    forall i | 0 <= i < |name| ensures r[i] == name[i] { assert SafeChar(name[i]); }
  }

  /** Sanitizing twice is sanitizing once, whenever the first result is not empty. */
  lemma SanitizeIdempotent(name: string)
    requires SanitizeFilename(name) != []
    ensures SanitizeFilename(SanitizeFilename(name)) == SanitizeFilename(name)
  {
    var r := SanitizeFilename(name);
    if name == [] {
      SanitizeKeepsSafeName(UnknownFile);
    } else {
      SanitizeKeepsSafeName(r);
    }
  }

  /** The exception to idempotence: a lone NUL sanitizes to "", which sanitizes to "unknown_file". */
  lemma SanitizeNulOnly()
    ensures SanitizeFilename("\0") == ""
    ensures SanitizeFilename(SanitizeFilename("\0")) == UnknownFile
  {
  }

  /** `..` is neither removed nor rewritten: the sanitizer does not guard against traversal. */
  lemma SanitizeKeepsDotDot()
    ensures SanitizeFilename("..") == ".."
  {
    SanitizeKeepsSafeName("..");
  }

  // ---------------------------------------------------------------------------
  // get_filename_from_cd: re.findall(r'filename="?([^"]+)"?', cd)[0]
  // ---------------------------------------------------------------------------

  const FilenameKey: string := "filename="

  /** The longest prefix of `s` without a `"`, which is what `[^"]+` consumes greedily. */
  function QuotelessRun(s: string): (r: string)
    ensures r <= s && Lacks(r, '"')
    ensures |r| < |s| ==> s[|r|] == '"'
  {
    if s == [] || s[0] == '"' then [] else [s[0]] + QuotelessRun(s[1..])
  }

  lemma {:induction false} QuotelessRunUpToQuote(v: string, rest: string)
    requires '"' !in v
    ensures QuotelessRun(v + "\"" + rest) == v
  {
    if v != [] {
      assert (v + "\"" + rest)[1..] == v[1..] + "\"" + rest;
      QuotelessRunUpToQuote(v[1..], rest);
    }
  }

  /**
   * The regex tried at position `i`: the literal `filename=`, an optional `"`, then the
   * capture of one or more non-quote characters. When the optional quote is present but
   * nothing follows it, backtracking to an empty `"?` leaves `[^"]+` facing the quote,
   * so there is no match at `i`.
   */
  function CaptureAt(cd: string, i: nat): Option<string>
    requires i <= |cd|
  {
    if i + |FilenameKey| <= |cd| && cd[i..i + |FilenameKey|] == FilenameKey then
      var j := i + |FilenameKey|;
      var k := if j < |cd| && cd[j] == '"' then j + 1 else j;
      var run := QuotelessRun(cd[k..]);
      if run == [] then None else Some(run)
    else None
  }

  /** What a capture at `i` says about the header text around it. */
  lemma CaptureAtShape(cd: string, i: nat)
    requires i <= |cd| && CaptureAt(cd, i).Some?
    ensures var v := CaptureAt(cd, i).value;
      v != [] && '"' !in v &&
      (   (i + |FilenameKey| + |v| <= |cd| && cd[i..i + |FilenameKey| + |v|] == FilenameKey + v)
       || (i + |FilenameKey| + 1 + |v| <= |cd| && cd[i..i + |FilenameKey| + 1 + |v|] == FilenameKey + "\"" + v))
  {
    var v := CaptureAt(cd, i).value;
    var j := i + |FilenameKey|;
    if j < |cd| && cd[j] == '"' {
      assert cd[i..j + 1 + |v|] == cd[i..j] + [cd[j]] + cd[j + 1..j + 1 + |v|];
    } else {
      assert cd[i..j + |v|] == cd[i..j] + cd[j..j + |v|];
    }
  }

  /** The leftmost match at or after `i` (the scan of `re.findall`). */
  function FirstCapture(cd: string, i: nat): (r: Option<string>)
    requires i <= |cd|
    ensures r.None? ==> forall k :: i <= k <= |cd| ==> CaptureAt(cd, k).None?
    ensures r.Some? ==> exists k :: i <= k <= |cd| && CaptureAt(cd, k) == r &&
                                    forall j :: i <= j < k ==> CaptureAt(cd, j).None?
    decreases |cd| - i
  {
    if i == |cd| then None
    else
      match CaptureAt(cd, i)
      case Some(v) => Some(v)
      case None => FirstCapture(cd, i + 1)
  }

  /**
   * `get_filename_from_cd`: None for the empty header or when `filename=` is never followed
   * by a non-quote character; otherwise the capture of the leftmost match, which is non-empty
   * and holds no `"`.
   */
  function FilenameFromContentDisposition(cd: string): (r: Option<string>)
    ensures cd == [] ==> r == None
    ensures r.None? <==> forall k :: 0 <= k <= |cd| ==> CaptureAt(cd, k).None?
    ensures r.Some? ==> r.value != [] && Lacks(r.value, '"')
    ensures r.Some? ==> exists k :: 0 <= k <= |cd| && CaptureAt(cd, k) == r &&
                                    forall j :: 0 <= j < k ==> CaptureAt(cd, j).None?
  {
    if cd == [] then None else FirstCapture(cd, 0)
  }

  // ---------------------------------------------------------------------------
  // get_local_path
  // ---------------------------------------------------------------------------


  /** The filename chosen before sanitizing (lines 227-238). */
  function ChosenFilename(rawPath: string, contentDisposition: Option<string>): (r: string)
    ensures r != []
  {
    var fromHeader :=
      if contentDisposition.Some? && contentDisposition.value != []
      then FilenameFromContentDisposition(contentDisposition.value) else None;
    if fromHeader.Some? && fromHeader.value != [] then fromHeader.value
    else
      var base := Basename(rawPath);
      if base == [] || !InBasename('.', rawPath) then FallbackFilename else Unquote(base)
  }

  /**
   * Filename precedence: a header that yields a match wins; otherwise the URL's raw base
   * name, decoded, when it contains a `.`; otherwise "index_doc.pdf".
   */
  lemma FilenamePrecedence(rawPath: string, contentDisposition: Option<string>)
    ensures var header := if contentDisposition.Some? then FilenameFromContentDisposition(contentDisposition.value) else None;
      ChosenFilename(rawPath, contentDisposition) ==
        if header.Some? then header.value
        else if '.' in Basename(rawPath) then Unquote(Basename(rawPath))
        else FallbackFilename
  {
    InBasenameIsIn('.', rawPath);
  }

  /** The header of the example below: `attachment; filename="Report (Final).pdf"`. */
  const ExampleHeader: string := "attachment; " + FilenameKey + "\"" + "Report (Final).pdf" + "\""

  lemma ExampleHeaderMatchesAt12()
    ensures forall k :: 0 <= k < 12 ==> CaptureAt(ExampleHeader, k).None?
    ensures CaptureAt(ExampleHeader, 12) == Some("Report (Final).pdf")
  {
    var cd := ExampleHeader;
    var lead := "attachment; ";
    assert 'f' !in lead;
    forall k | 0 <= k < 12 ensures CaptureAt(cd, k).None? {
      assert cd[k] == lead[k];
      assert cd[k..k + 9][0] != FilenameKey[0];
    }
    assert cd[12..21] == FilenameKey;
    assert cd[21] == '"';
    assert cd[22..] == "Report (Final).pdf" + "\"" + "";
    QuotelessRunUpToQuote("Report (Final).pdf", "");
  }

  /** The scan returns the first position that matches, skipping every one before it. */
  lemma {:induction false} FirstCaptureIsLeftmost(cd: string, i: nat, m: nat)
    requires i <= m < |cd|
    requires forall k :: i <= k < m ==> CaptureAt(cd, k).None?
    requires CaptureAt(cd, m).Some?
    ensures FirstCapture(cd, i) == CaptureAt(cd, m)
    decreases m - i
  {
    if i < m {
      FirstCaptureIsLeftmost(cd, i + 1, m);
    }
  }

  /** A declared `Report (Final).pdf` is extracted whole, spaces and parentheses included. */
  lemma ExampleHeaderFilename()
    ensures FilenameFromContentDisposition(ExampleHeader) == Some("Report (Final).pdf")
  {
    ExampleHeaderMatchesAt12();
    FirstCaptureIsLeftmost(ExampleHeader, 0, 12);
  }

  /** With that header, an extension-less URL is stored under the declared name, not the fallback. */
  lemma ExampleHeaderWins()
    ensures SanitizeFilename(ChosenFilename("/docs/annual", Some(ExampleHeader))) == "Report (Final).pdf"
  {
    ExampleHeaderFilename();
    FilenamePrecedence("/docs/annual", Some(ExampleHeader));
    ExampleNameIsSafe();
  }

  lemma ExampleNameIsSafe()
    ensures SanitizeFilename("Report (Final).pdf") == "Report (Final).pdf"
  {
    SanitizeKeepsSafeName("Report (Final).pdf");
  }

  /** Without a header, a URL ending in `/reports/` is stored under the fallback name. */
  lemma DirectoryUrlGetsFallback()
    ensures ChosenFilename("/docs/reports/", None) == FallbackFilename
  {
    assert Basename("/docs/reports/") == [];
  }

  /** `[sanitize_filename(p) for p in parts]` */
  function SanitizeAll(parts: seq<string>): (r: seq<string>)
    ensures |r| == |parts|
    ensures forall i :: 0 <= i < |parts| ==> r[i] == SanitizeFilename(parts[i])
    ensures forall i :: 0 <= i < |r| ==> SafeName(r[i])
  {
    if parts == [] then [] else [SanitizeFilename(parts[0])] + SanitizeAll(parts[1..])
  }

  /** The directory part of the decoded path (lines 212-220). */
  function DirectoryPart(decodedPath: string): string {
    var pathPath := LStrip(decodedPath, '/');
    if InBasename('.', pathPath) then Dirname(pathPath) else pathPath
  }

  /**
   * The components `get_local_path` hands to `os.path.join`: the base directory, the sanitized
   * host, each sanitized non-empty directory component, and the sanitized filename.
   */
  function LocalPathComponents(baseDir: string, url: UrlParts,
                               contentDisposition: Option<string>): (r: seq<string>)
    ensures |r| >= 3 && r[0] == baseDir
  {
    var domainDir := SanitizeFilename(url.netloc);
    var safeParts := SanitizeAll(NonEmpty(Split(DirectoryPart(Unquote(url.path)), '/')));
    var safeFilename := SanitizeFilename(ChosenFilename(url.path, contentDisposition));
    [baseDir] + ([domainDir] + safeParts + [safeFilename])
  }

  /** `get_local_path(base_dir, url, content_disposition)` */
  function LocalPath(baseDir: string, url: UrlParts,
                     contentDisposition: Option<string>): (r: string)
    ensures baseDir <= r
  {
    var c := LocalPathComponents(baseDir, url, contentDisposition);
    LocalPathUnderBase(baseDir, url, contentDisposition);
    JoinSafeTail(c);
    JoinAll(c[0], c[1..])
  }

  /** The directory components mirrored on disk: the path's components, minus the base name when it holds a `.`. */
  function MirroredDirs(pathPath: string): seq<string> {
    var segs := Segments(pathPath);
    if InBasename('.', pathPath) && segs != [] then segs[..|segs| - 1] else segs
  }

  /** A base name holding a `.` is the path's last component. */
  lemma DottedBasenameIsLastSegment(p: string)
    requires '.' in Basename(p)
    ensures Segments(p) != [] && Segments(p)[|Segments(p)| - 1] == Basename(p)
    ensures Segments(Dirname(p)) == Segments(p)[..|Segments(p)| - 1]
  {
    var base := Basename(p);
    DirnameSegments(p);
    assert NonEmpty([base]) == [base] by {
      assert base != [];
      assert [base][1..] == [];
    }
    var d := Segments(Dirname(p));
    assert Segments(p) == d + [base];
    assert (d + [base])[..|d|] == d;
  }

  lemma DirectoryPartSegments(decodedPath: string)
    ensures Segments(DirectoryPart(decodedPath)) == MirroredDirs(LStrip(decodedPath, '/'))
  {
    var p := LStrip(decodedPath, '/');
    InBasenameIsIn('.', p);
    if '.' in Basename(p) {
      DottedBasenameIsLastSegment(p);
    }
  }

  /**
   * Structure of the local path: base directory, sanitized host, the sanitized mirrored
   * directories (a last component naming a file is not a directory), sanitized filename.
   */
  lemma LocalPathStructure(baseDir: string, url: UrlParts,
                           contentDisposition: Option<string>)
    ensures LocalPathComponents(baseDir, url, contentDisposition) ==
      [baseDir] + ([SanitizeFilename(url.netloc)]
      + SanitizeAll(MirroredDirs(LStrip(Unquote(url.path), '/')))
      + [SanitizeFilename(ChosenFilename(url.path, contentDisposition))])
  {
    DirectoryPartSegments(Unquote(url.path));
  }

  /** Safe components never reset or escape the join: the result extends the base directory. */
  lemma {:induction false} JoinSafeExtends(baseDir: string, rest: seq<string>)
    requires forall i :: 0 <= i < |rest| ==> SafeName(rest[i])
    ensures baseDir <= JoinAll(baseDir, rest)
  {
    forall i | 0 <= i < |rest| ensures '/' !in rest[i] {
      SafeNameHasNoSlash(rest[i]);
    }
    JoinAllExtends(baseDir, rest);
  }

  /** Joining a first component with safe ones extends the first. */
  lemma JoinSafeTail(c: seq<string>)
    requires |c| >= 1 && forall i :: 1 <= i < |c| ==> SafeName(c[i])
    ensures c[0] <= JoinAll(c[0], c[1..])
  {
    assert forall i :: 0 <= i < |c[1..]| ==> c[1..][i] == c[i + 1];
    JoinSafeExtends(c[0], c[1..]);
  }

  lemma SafeComponents(host: string, dirs: seq<string>, file: string)
    requires SafeName(host) && SafeName(file)
    requires forall i :: 0 <= i < |dirs| ==> SafeName(dirs[i])
    ensures forall i :: 0 <= i < |[host] + dirs + [file]| ==> SafeName(([host] + dirs + [file])[i])
  {
  }

  /**
   * No component after the base directory contains a `/`, a NUL or a reserved character, so
   * the joined path starts with the base directory. Components equal to `..` are not excluded.
   */
  lemma LocalPathUnderBase(baseDir: string, url: UrlParts,
                           contentDisposition: Option<string>)
    ensures var c := LocalPathComponents(baseDir, url, contentDisposition);
      c[0] == baseDir && forall i :: 1 <= i < |c| ==> SafeName(c[i])
  {
    var host := SanitizeFilename(url.netloc);
    var dirs := SanitizeAll(NonEmpty(Split(DirectoryPart(Unquote(url.path)), '/')));
    var file := SanitizeFilename(ChosenFilename(url.path, contentDisposition));
    var c := LocalPathComponents(baseDir, url, contentDisposition);
    SafeComponents(host, dirs, file);
    assert c[1..] == [host] + dirs + [file];
  }

  // ---------------------------------------------------------------------------
  // is_subpath
  // ---------------------------------------------------------------------------

  /** The scope root with a trailing `/` added when it lacks one. */
  function NormalizeRoot(root: string): (r: string)
    ensures r != [] && r[|r| - 1] == '/'
    ensures root <= r && |r| <= |root| + 1
    ensures EndsWith(root, "/") ==> r == root
    ensures !EndsWith(root, "/") ==> r == root + "/"
  {
    if EndsWith(root, "/") then root else root + "/"
  }

  /** `is_subpath(target, root)`: a string-prefix test against the normalized root. */
  function IsSubpath(target: string, root: string): (r: bool)
    ensures r ==> root <= target && |NormalizeRoot(root)| <= |target| && target[|NormalizeRoot(root)| - 1] == '/'
  {
    NormalizeRoot(root) <= target
  }

  /**
   * Against a root without a trailing `/`, a target is inside exactly when it extends the
   * root by a `/` and anything after it.
   */
  lemma SubpathOfBareRoot(target: string, root: string)
    requires !EndsWith(root, "/")
    ensures IsSubpath(target, root) <==>
            |target| > |root| && target[..|root|] == root && target[|root|] == '/'
  {
    if |target| > |root| && target[..|root|] == root && target[|root|] == '/' {
      assert target[..|root| + 1] == root + "/";
    }
  }

  /** The two spellings of a root, with and without the trailing `/`, define the same scope. */
  lemma SubpathSpellingsAgree(target: string, root: string)
    requires !EndsWith(root, "/")
    ensures IsSubpath(target, root) == IsSubpath(target, root + "/")
  {
    assert EndsWith(root + "/", "/");
  }

  /** A root written without its trailing `/` is not inside its own scope. */
  lemma RootNotInOwnScope(root: string)
    requires !EndsWith(root, "/")
    ensures !IsSubpath(root, root) && !IsSubpath(root, root + "/")
  {
  }

  /** Scopes nest: a target inside a directory that is itself inside the root is inside the root. */
  lemma SubpathTransitive(target: string, dir: string, root: string)
    requires EndsWith(dir, "/") && IsSubpath(dir, root) && IsSubpath(target, dir)
    ensures IsSubpath(target, root)
  {
    assert NormalizeRoot(dir) == dir;
  }

  /** The test is on strings only: a `..` segment after the root passes. */
  lemma DotDotPassesScope()
    ensures IsSubpath("root/a/b.pdf", "root/")
    ensures !IsSubpath("root2/x", "root/")
    ensures IsSubpath("root/../secret", "root/")
    ensures IsSubpath("root/a", "root") == IsSubpath("root/a", "root/")
  {
    assert EndsWith("root/", "/");
    assert !EndsWith("root", "/");
    assert "root/" <= "root/a/b.pdf";
    assert "root/" <= "root/../secret";
    assert ("root2/x")[4] != ("root/")[4];
  }
}

/** FileService: the checks on an uploaded archive, the choice of the Java
    entries inside it, and the sanitising of entry names before extraction,
    with the path-traversal guard that follows it. Paths are modelled the way
    java.nio resolves and normalises Unix paths. */
module Files {
  import opened Wrappers
  import opened Strings

  // ---------------------------------------------------------------------------
  // Upload validation

  /** The default of `diffgrader.file.max-size`: 50 MiB. */
  const DefaultMaxFileSize: nat := 52428800

  const EmptyFileMessage: string := "File is empty"
  const OnlyZipMessage: string := "Only ZIP files are allowed"

  function TooLargeMessage(maxFileSize: nat): string {
    "File size exceeds maximum allowed size: " + DecimalString(maxFileSize) + " bytes"
  }

  /** validateFile. A multipart file is empty exactly when its size is 0.
      An upload passes exactly when it is non-empty, within the size limit
      and named *.zip in any letter case; the checks apply in that order.
      The content type is only compared and logged, never refused. */
  function ValidateFile(size: nat, originalName: Option<string>, contentType: Option<string>, maxFileSize: nat): (r: Outcome)
    ensures r.Pass? <==> 0 < size <= maxFileSize && originalName.Some? && EndsWith(Lower(originalName.value), ".zip")
    ensures size == 0 ==> r == Fail(EmptyFileMessage)
    ensures 0 < size <= maxFileSize && originalName.None? ==> r == Fail(OnlyZipMessage)
  {
    if size == 0 then Fail(EmptyFileMessage)
    else if size > maxFileSize then Fail(TooLargeMessage(maxFileSize))
    else if originalName.None? || !EndsWith(Lower(originalName.value), ".zip") then Fail(OnlyZipMessage)
    else Pass
  }

  /** The content type never decides the outcome. */
  lemma ValidateFileIgnoresContentType(size: nat, originalName: Option<string>, contentType: Option<string>, maxFileSize: nat, otherType: Option<string>)
    ensures ValidateFile(size, originalName, contentType, maxFileSize) == ValidateFile(size, originalName, otherType, maxFileSize)
  {
  }

  /** A name ending in ".zip" or ".ZIP" passes the name check. */
  lemma ZipSuffixAccepted(stem: string)
    ensures ValidateFile(1, Some(stem + ".zip"), None, DefaultMaxFileSize).Pass?
    ensures ValidateFile(1, Some(stem + ".ZIP"), None, DefaultMaxFileSize).Pass?
  {
    var a, b := Lower(stem + ".zip"), Lower(stem + ".ZIP");
    assert a[|a| - 4..] == ".zip";
    assert b[|b| - 4..] == ".zip";
  }

  // ---------------------------------------------------------------------------
  // Java entries

  /** isJavaFile: the lower-cased name ends with ".java", which is to say
      the name's last five characters spell ".java" in any letter case. */
  function IsJavaFile(fileName: string): (b: bool)
    ensures b <==> |fileName| >= 5 && Lower(fileName[|fileName| - 5..]) == ".java"
  {
    LowerSuffix(fileName, 5);
    EndsWith(Lower(fileName), ".java")
  }

  /** The test ignores letter case: a name and its lower-cased form are
      judged alike, and any name followed by ".java" or ".JAVA" is a Java
      file. */
  lemma IsJavaFileCaseInsensitive(fileName: string, stem: string)
    ensures IsJavaFile(Lower(fileName)) <==> IsJavaFile(fileName)
    ensures IsJavaFile(stem + ".java") && IsJavaFile(stem + ".JAVA")
  {
    LowerIdempotent(fileName);
    var a, b := Lower(stem + ".java"), Lower(stem + ".JAVA");
    assert a[|a| - 5..] == ".java";
    assert b[|b| - 5..] == ".java";
  }

  // ---------------------------------------------------------------------------
  // Sanitising entry names

  /** The characters the sanitiser keeps: `[a-zA-Z0-9._-]`. */
  predicate Allowed(c: char) {
    ('a' <= c <= 'z') || ('A' <= c <= 'Z') || ('0' <= c <= '9') || c == '.' || c == '_' || c == '-'
  }

  predicate AllSlashes(s: string) {
    forall i :: 0 <= i < |s| ==> s[i] == '/'
  }

  /** The length of `s[..i]` without its trailing '/' characters. */
  function ContentEnd(s: string, i: nat): (k: nat)
    requires i <= |s|
    ensures k <= i
    ensures k > 0 ==> s[k - 1] != '/'
    ensures forall j :: k <= j < i ==> s[j] == '/'
    decreases i
  {
    if i == 0 || s[i - 1] != '/' then i else ContentEnd(s, i - 1)
  }

  /** `s` without its trailing '/' characters. */
  function TrimTrailingSlashes(s: string): (r: string)
    ensures |r| <= |s| && r == s[..|r|]
    ensures r == [] || r[|r| - 1] != '/'
    ensures forall i :: |r| <= i < |s| ==> s[i] == '/'
  {
    s[..ContentEnd(s, |s|)]
  }

  /** The position just after the last '/' in `s[..i]`, or 0 when there is
      none. */
  function NameStart(s: string, i: nat): (k: nat)
    requires i <= |s|
    ensures k <= i
    ensures k > 0 ==> s[k - 1] == '/'
    ensures forall j :: k <= j < i ==> s[j] != '/'
    decreases i
  {
    if i == 0 || s[i - 1] == '/' then i else NameStart(s, i - 1)
  }

  /** A '/' at position `m - 1` bounds the start from below. */
  lemma {:induction false} NameStartAtLeast(s: string, i: nat, m: nat)
    requires 0 < m <= i <= |s| && s[m - 1] == '/'
    ensures NameStart(s, i) >= m
    decreases i
  {
    if i > m && s[i - 1] != '/' {
      NameStartAtLeast(s, i - 1, m);
    }
  }

  /** No '/' from position `m` on bounds the start from above. */
  lemma {:induction false} NameStartAtMost(s: string, i: nat, m: nat)
    requires m <= i <= |s|
    requires forall j :: m <= j < i ==> s[j] != '/'
    ensures NameStart(s, i) <= m
    decreases i
  {
    if i > m {
      NameStartAtMost(s, i - 1, m);
    }
  }

  /** The part of `s` after its last '/'. */
  function AfterLastSlash(s: string): (r: string)
    ensures |r| <= |s| && r == s[|s| - |r|..]
    ensures '/' !in r
    ensures |r| < |s| ==> s[|s| - |r| - 1] == '/'
  {
    var k := NameStart(s, |s|);
    var r := s[k..];
    assert forall j :: 0 <= j < |r| ==> r[j] == s[k + j];
    r
  }

  const NulMessage: string := "Nul character not allowed"
  const NoFileNameMessage: string :=
    "Cannot invoke \"java.nio.file.Path.toString()\" because the return value of \"java.nio.file.Path.getFileName()\" is null"

  /** `Paths.get(name).getFileName().toString()` on Unix: the last name
      element. A NUL character is an invalid path; a name of slashes only is
      the root, which has no file name; the empty path is its own file name. */
  function FileNamePart(name: string): (r: Result<string>)
    ensures r.Failure? <==> '\0' in name || (name != [] && AllSlashes(name))
    ensures r.Success? ==> '/' !in r.value
  {
    if '\0' in name then Failure(NulMessage + ": " + name)
    else if name == [] then Success([])
    else if AllSlashes(name) then Failure(NoFileNameMessage)
    else Success(AfterLastSlash(TrimTrailingSlashes(name)))
  }

  /** `replaceAll("[^a-zA-Z0-9._-]", "_")`. */
  function ReplaceDisallowed(s: string): (r: string)
    ensures |r| == |s|
    ensures forall i :: 0 <= i < |s| ==> r[i] == (if Allowed(s[i]) then s[i] else '_')
  {
    seq(|s|, i requires 0 <= i < |s| => if Allowed(s[i]) then s[i] else '_')
  }

  /** The last step of sanitizeFileName: a name that is empty or starts with
      '.' is prefixed with "file_". */
  function PrefixIfHidden(s: string): (r: string)
    ensures |r| > 0 && r[0] != '.'
    ensures |s| > 0 && s[0] != '.' ==> r == s
    ensures |s| <= |r| && r[|r| - |s|..] == s
    ensures (forall i :: 0 <= i < |s| ==> Allowed(s[i])) ==> forall i :: 0 <= i < |r| ==> Allowed(r[i])
  {
    if s == [] || s[0] == '.' then
      var r := "file_" + s;
      assert r[0] == "file_"[0];
      assert forall i :: 0 <= i < 5 ==> Allowed(r[i]);
      r
    else s
  }

  /** sanitizeFileName. It fails only on a NUL character or a name of
      slashes only; otherwise it yields a safe name containing no '/'. */
  function SanitizeFileName(fileName: string): (r: Result<string>)
    ensures r.Failure? <==> '\0' in fileName || (fileName != [] && AllSlashes(fileName))
    ensures r.Success? ==> SafeName(r.value) && '/' !in r.value && r.value != "." && r.value != ".."
  {
    match FileNamePart(fileName)
    case Failure(e) => Failure(e)
    case Success(base) => Success(PrefixIfHidden(ReplaceDisallowed(base)))
  }

  /** Sanitising replaces the disallowed characters of the file-name part
      and prefixes a hidden result. */
  lemma SanitizeOfPart(fileName: string, base: string)
    requires FileNamePart(fileName) == Success(base)
    ensures SanitizeFileName(fileName) == Success(PrefixIfHidden(ReplaceDisallowed(base)))
  {
  }

  /** A sanitised name is one non-empty name element of allowed characters
      that does not start with '.', so it is neither "." nor "..". */
  predicate SafeName(v: string) {
    && |v| > 0 && v[0] != '.'
    && (forall i :: 0 <= i < |v| ==> Allowed(v[i]))
  }

  /** Replacing and prefixing make any name safe. */
  lemma CleanedIsSafe(base: string)
    ensures var v := PrefixIfHidden(ReplaceDisallowed(base));
      SafeName(v) && '/' !in v && v != "." && v != ".."
  {
    var v := PrefixIfHidden(ReplaceDisallowed(base));
    assert forall i :: 0 <= i < |v| ==> Allowed(v[i]);
    assert '/' !in v by {
      forall i | 0 <= i < |v| ensures v[i] != '/' { assert Allowed(v[i]); }
    }
  }

  /** A safe name is its own file-name part and is left alone by the
      replacement. */
  lemma SafeNameFixed(v: string)
    requires SafeName(v)
    ensures FileNamePart(v) == Success(v)
    ensures ReplaceDisallowed(v) == v
  {
    SafeNamePart(v);
    ReplaceAllowed(v);
  }

  lemma SafeNamePart(v: string)
    requires SafeName(v)
    ensures FileNamePart(v) == Success(v)
  {
    SafeNameChars(v);
    FileNamePartOfPlainEnd(v);
    AfterLastSlashOfPlain(v);
  }

  /** The replacement leaves a name of allowed characters alone. */
  lemma ReplaceAllowed(v: string)
    requires forall i :: 0 <= i < |v| ==> Allowed(v[i])
    ensures ReplaceDisallowed(v) == v
  {
    assert forall i :: 0 <= i < |v| ==> ReplaceDisallowed(v)[i] == v[i];
  }

  /** A safe name holds neither a NUL nor a '/'. */
  lemma SafeNameChars(v: string)
    requires SafeName(v)
    ensures '\0' !in v && '/' !in v && v[|v| - 1] != '/'
  {
    assert Allowed(v[|v| - 1]);
    assert '\0' !in v by {
      forall i | 0 <= i < |v| ensures v[i] != '\0' { assert Allowed(v[i]); }
    }
    assert '/' !in v by {
      forall i | 0 <= i < |v| ensures v[i] != '/' { assert Allowed(v[i]); }
    }
  }

  lemma AfterLastSlashOfPlain(s: string)
    requires '/' !in s
    ensures AfterLastSlash(s) == s
  {
    NameStartAtMost(s, |s|, 0);
  }

  /** Sanitising is idempotent: a sanitised name sanitises to itself. */
  lemma SanitizeIdempotent(fileName: string)
    requires SanitizeFileName(fileName).Success?
    ensures SanitizeFileName(SanitizeFileName(fileName).value) == SanitizeFileName(fileName)
  {
    var v := SanitizeFileName(fileName).value;
    SafeNameFixed(v);
  }

  /** Directories in an entry name do not matter: only the last element is
      kept. */
  lemma SanitizeDropsDirectories(dir: string, name: string)
    requires '\0' !in dir && '\0' !in name && '/' !in name && name != []
    ensures SanitizeFileName(dir + "/" + name) == SanitizeFileName(name)
  {
    var full := (dir + "/") + name;
    assert full == dir + "/" + name;
    assert full[|full| - 1] == name[|name| - 1];
    assert '\0' !in full by {
      forall i | 0 <= i < |full| ensures full[i] != '\0' {
        if i < |dir| { assert full[i] == dir[i]; }
        else if i > |dir| { assert full[i] == name[i - |dir| - 1]; }
      }
    }
    AfterLastSlashOfSuffix(dir + "/", name);
    FileNamePartOfPlainEnd(full);
    AfterLastSlashOfPlain(name);
    FileNamePartOfPlainEnd(name);
    SanitizeOfPart(full, name);
    SanitizeOfPart(name, name);
  }

  lemma AfterLastSlashOfSuffix(prefix: string, name: string)
    requires prefix != [] && prefix[|prefix| - 1] == '/' && '/' !in name
    ensures AfterLastSlash(prefix + name) == name
  {
    var s := prefix + name;
    assert s[|prefix| - 1] == '/';
    NameStartAtLeast(s, |s|, |prefix|);
    assert forall j :: |prefix| <= j < |s| ==> s[j] == name[j - |prefix|];
    NameStartAtMost(s, |s|, |prefix|);
    assert s[|prefix|..] == name;
  }

  /** The last five characters of `s` read ".java" in some letter case. */
  predicate JavaTail(s: string) {
    |s| >= 5 && Lower(s[|s| - 5..]) == ".java"
  }

  lemma IsJavaFileIsJavaTail(s: string)
    ensures IsJavaFile(s) <==> JavaTail(s)
  {
    if |s| >= 5 {
      assert Lower(s)[|s| - 5..] == Lower(s[|s| - 5..]);
    }
  }

  /** The characters of a ".java" tail are allowed and none is a '/'. */
  lemma JavaTailChars(t: string)
    requires |t| == 5 && Lower(t) == ".java"
    ensures forall k :: 0 <= k < 5 ==> Allowed(t[k]) && t[k] != '/'
  {
    forall k | 0 <= k < 5
      ensures Allowed(t[k]) && t[k] != '/'
    {
      assert Lower(t)[k] == LowerChar(t[k]);
    }
  }

  /** A tail without '/' survives the cut after the last '/'. */
  lemma AfterLastSlashKeepsTail(s: string, t: string)
    requires EndsWith(s, t) && '/' !in t
    ensures EndsWith(AfterLastSlash(s), t)
  {
    var m := |s| - |t|;
    assert forall j :: m <= j < |s| ==> s[j] == t[j - m];
    NameStartAtMost(s, |s|, m);
    var k := NameStart(s, |s|);
    var r := AfterLastSlash(s);
    assert r == s[k..];
    assert r[|r| - |t|..] == s[m..];
  }

  /** A tail of allowed characters survives the replacement. */
  lemma ReplaceKeepsTail(base: string, t: string)
    requires EndsWith(base, t)
    requires forall k :: 0 <= k < |t| ==> Allowed(t[k])
    ensures EndsWith(ReplaceDisallowed(base), t)
  {
    var r := ReplaceDisallowed(base);
    forall k | 0 <= k < |t|
      ensures r[|base| - |t|..][k] == t[k]
    {
      assert base[|base| - |t| + k] == t[k];
    }
  }

  /** Ending with `b` and `b` ending with `t` means ending with `t`. */
  lemma TailOfTail(v: string, b: string, t: string)
    requires EndsWith(v, b) && EndsWith(b, t)
    ensures EndsWith(v, t)
  {
    forall k | 0 <= k < |t|
      ensures v[|v| - |t|..][k] == t[k]
    {
      assert v[|v| - |t| + k] == b[|b| - |t| + k];
    }
  }

  /** For a name ending in something other than '/', the file-name part is
      everything after the last '/'. */
  lemma FileNamePartOfPlainEnd(fileName: string)
    requires fileName != [] && fileName[|fileName| - 1] != '/' && '\0' !in fileName
    ensures FileNamePart(fileName) == Success(AfterLastSlash(fileName))
  {
    assert !AllSlashes(fileName);
    assert ContentEnd(fileName, |fileName|) == |fileName|;
    assert fileName[..|fileName|] == fileName;
  }

  /** The three steps of sanitising each keep a tail of allowed characters
      other than '/'. */
  lemma StepsKeepTail(fileName: string, t: string)
    requires EndsWith(fileName, t)
    requires '/' !in t && forall k :: 0 <= k < |t| ==> Allowed(t[k])
    ensures EndsWith(PrefixIfHidden(ReplaceDisallowed(AfterLastSlash(fileName))), t)
  {
    AfterLastSlashKeepsTail(fileName, t);
    var base := AfterLastSlash(fileName);
    ReplaceKeepsTail(base, t);
    var replaced := ReplaceDisallowed(base);
    assert EndsWith(PrefixIfHidden(replaced), replaced);
    TailOfTail(PrefixIfHidden(replaced), replaced, t);
  }

  /** A non-empty tail of allowed characters ends the sanitised name too. */
  lemma SanitizeKeepsTail(fileName: string, t: string)
    requires t != [] && EndsWith(fileName, t)
    requires forall k :: 0 <= k < |t| ==> Allowed(t[k]) && t[k] != '/'
    requires SanitizeFileName(fileName).Success?
    ensures EndsWith(SanitizeFileName(fileName).value, t)
  {
    assert fileName[|fileName| - 1] == t[|t| - 1];
    assert '/' !in t;
    assert '\0' !in fileName;
    FileNamePartOfPlainEnd(fileName);
    SanitizeOfPart(fileName, AfterLastSlash(fileName));
    StepsKeepTail(fileName, t);
  }

  /** A Java entry keeps its extension through sanitising. */
  lemma SanitizeKeepsJavaExtension(fileName: string)
    requires IsJavaFile(fileName) && SanitizeFileName(fileName).Success?
    ensures IsJavaFile(SanitizeFileName(fileName).value)
  {
    IsJavaFileIsJavaTail(fileName);
    var t := fileName[|fileName| - 5..];
    JavaTailChars(t);
    assert EndsWith(fileName, t);
    SanitizeKeepsTail(fileName, t);
    EndsWithJavaTail(SanitizeFileName(fileName).value, t);
  }

  /** A name ending in a ".java" tail is a Java file. */
  lemma EndsWithJavaTail(v: string, t: string)
    requires EndsWith(v, t) && |t| == 5 && Lower(t) == ".java"
    ensures IsJavaFile(v)
  {
    IsJavaFileIsJavaTail(v);
  }

  // ---------------------------------------------------------------------------
  // Paths and the traversal guard

  /** A Unix path: whether it starts at the root, and its name elements. */
  datatype Path = Path(absolute: bool, names: seq<string>)

  /** The longest prefix of `s` without '/'. */
  function LeadingName(s: string): (w: string)
    ensures |w| <= |s| && w == s[..|w|] && '/' !in w
    ensures |w| < |s| ==> s[|w|] == '/'
  {
    if s == [] || s[0] == '/' then [] else [s[0]] + LeadingName(s[1..])
  }

  /** The name elements of `s`: the non-empty runs between slashes. */
  function Segments(s: string): (r: seq<string>)
    decreases |s|
  {
    if s == [] then []
    else if s[0] == '/' then Segments(s[1..])
    else
      var w := LeadingName(s);
      [w] + Segments(s[|w|..])
  }

  /** `Paths.get(s)`. */
  function ParsePath(s: string): Path {
    Path(|s| > 0 && s[0] == '/', Segments(s))
  }

  /** `dir.resolve(other)`: an absolute `other` replaces `dir`, an empty one
      leaves it, any other is appended. */
  function Resolve(dir: Path, other: string): Path {
    if |other| > 0 && other[0] == '/' then ParsePath(other)
    else if other == [] then dir
    else Path(dir.absolute, dir.names + Segments(other))
  }

  /** One name element onto a normalised list: "." is dropped, ".." removes
      the previous element (or is dropped at the root, or kept at the start of
      a relative path). */
  function Push(absolute: bool, stack: seq<string>, n: string): seq<string> {
    if n == "." then stack
    else if n == ".." then
      if stack != [] && stack[|stack| - 1] != ".." then stack[..|stack| - 1]
      else if absolute then stack
      else stack + [n]
    else stack + [n]
  }

  function NormalizeNames(absolute: bool, names: seq<string>): seq<string>
    decreases |names|
  {
    if names == [] then [] else Push(absolute, NormalizeNames(absolute, names[..|names| - 1]), names[|names| - 1])
  }

  /** `Path.normalize()`. */
  function Normalize(p: Path): Path {
    Path(p.absolute, NormalizeNames(p.absolute, p.names))
  }

  /** `p.startsWith(q)`: same root, and `q`'s names begin `p`'s. The empty
      path (relative, no names) is the one name element "" in `java.nio`, so
      it starts only itself. */
  predicate PathStartsWith(p: Path, q: Path) {
    && p.absolute == q.absolute
    && (if !q.absolute && q.names == [] then p.names == []
        else |q.names| <= |p.names| && p.names[..|q.names|] == q.names)
  }

  /** A non-empty name without '/' is a single name element. */
  lemma SegmentsOfPlain(v: string)
    requires v != [] && '/' !in v
    ensures Segments(v) == [v]
  {
    assert LeadingName(v) == v;
    assert v[|v|..] == [];
  }

  /** Normalising ends by pushing the last name, which stays when it is
      neither "." nor "..". */
  lemma NormalizeAppendPlain(absolute: bool, names: seq<string>, v: string)
    requires v != "." && v != ".."
    ensures NormalizeNames(absolute, names + [v]) == NormalizeNames(absolute, names) + [v]
  {
    var all := names + [v];
    assert all[..|all| - 1] == names;
  }

  /** The traversal guard of extractZipEntry never fires: a sanitised entry
      name resolves under the extraction directory to a direct child of it.
      The directory is `Paths.get(uploadPath, name + "_extracted")`, so its
      last name is an ordinary one, which normalising keeps. */
  lemma TraversalGuardPasses(extractDir: Path, entryName: string)
    requires extractDir.names != [] && extractDir.names[|extractDir.names| - 1] != "."
    requires extractDir.names[|extractDir.names| - 1] != ".."
    requires SanitizeFileName(entryName).Success?
    ensures var v := SanitizeFileName(entryName).value;
      var target := Normalize(Resolve(extractDir, v));
      && PathStartsWith(target, Normalize(extractDir))
      && target.names == Normalize(extractDir).names + [v]
  {
    var v := SanitizeFileName(entryName).value;
    NormalizeKeepsLast(extractDir.absolute, extractDir.names);
    SegmentsOfPlain(v);
    assert Resolve(extractDir, v) == Path(extractDir.absolute, extractDir.names + [v]);
    NormalizeAppendPlain(extractDir.absolute, extractDir.names, v);
    var target := Normalize(Resolve(extractDir, v));
    var base := Normalize(extractDir).names;
    assert target.names[..|base|] == base;
  }

  /** A path whose last name is neither "." nor ".." keeps it when normalised. */
  lemma NormalizeKeepsLast(absolute: bool, names: seq<string>)
    requires names != [] && names[|names| - 1] != "." && names[|names| - 1] != ".."
    ensures NormalizeNames(absolute, names) != []
  {
    var n := |names|;
    assert names == names[..n - 1] + [names[n - 1]];
    NormalizeAppendPlain(absolute, names[..n - 1], names[n - 1]);
  }

  /** The guard does depend on the directory: under one that normalises to
      the empty path, even a plain entry fails it. */
  lemma EmptyDirectoryFailsGuard()
    ensures !PathStartsWith(Normalize(Resolve(Path(false, ["d", ".."]), "x")), Normalize(Path(false, ["d", ".."])))
  {
    SegmentsOfPlain("x");
    assert Resolve(Path(false, ["d", ".."]), "x") == Path(false, ["d", "..", "x"]);
    NormalizeParentThenX();
    assert ["d", ".."][..1] == ["d"];
    assert ["d"][..0] == [];
    assert NormalizeNames(false, ["d", ".."]) == [];
  }

  /** "../x" is the two name elements ".." and "x". */
  lemma SegmentsOfParentThenX()
    ensures Segments("../x") == ["..", "x"]
  {
    var raw := "../x";
    assert LeadingName(raw) == "..";
    assert raw[2..] == "/x";
    assert "/x"[1..] == "x";
    SegmentsOfPlain("x");
  }

  /** Without sanitising the guard would be needed: "../x" under "d"
      normalises to "x", outside the directory. */
  lemma RawEntryEscapes()
    ensures !PathStartsWith(Normalize(Resolve(Path(false, ["d"]), "../x")), Path(false, ["d"]))
  {
    SegmentsOfParentThenX();
    assert Resolve(Path(false, ["d"]), "../x") == Path(false, ["d", "..", "x"]);
    NormalizeParentThenX();
  }

  /** "d/../x" normalises to "x". */
  lemma NormalizeParentThenX()
    ensures NormalizeNames(false, ["d", "..", "x"]) == ["x"]
  {
    assert ["d", ".."][..1] == ["d"];
    assert ["d"][..0] == [];
    assert NormalizeNames(false, ["d"]) == ["d"];
    assert NormalizeNames(false, ["d", ".."]) == [];
    NormalizeAppendPlain(false, ["d", ".."], "x");
    assert ["d", ".."] + ["x"] == ["d", "..", "x"];
  }
}

/** Runtime and backend resolution of the Chromely host (the static class
    `Chromely.Core.ChromelyRuntime`): which operating system the host runs
    on, which platform variant of a CEF wrapper assembly it loads, where that
    assembly lives, and which Chromium build the wrapper expects.

    The environment the source reads (the OS platform id and version string,
    the process architecture, the directory of the core assembly and the path
    rules) is an explicit `HostEnvironment`; the reflection chain
    `Assembly.LoadFrom` / `GetTypes` / `GetProperty` / `GetValue` is an
    oracle `Reflection`; every exception is an `Err`. */
module ChromelyRuntime {
  import opened Wrappers
  import opened DotNetStrings
  import opened DotNetPath

  // ---------------------------------------------------------------------
  // Data model
  // ---------------------------------------------------------------------

  /** Values of `System.PlatformID`, and the value 128 that Mono used for
      Unix before the framework had one. */
  const PlatformIdWin32S: int := 0
  const PlatformIdWin32Windows: int := 1
  const PlatformIdWin32NT: int := 2
  const PlatformIdWinCE: int := 3
  const PlatformIdUnix: int := 4
  const PlatformIdXbox: int := 5
  const PlatformIdMacOSX: int := 6
  const PlatformIdMonoUnix: int := 128

  datatype ChromelyPlatform = NotSupported | Windows | Linux | MacOSX

  /** `ChromelyCefWrapper`. A C# enum variable can hold any integer;
      `Undeclared(raw)` stands for a value that names no declared member. */
  datatype ChromelyCefWrapper = CefGlue | CefSharp | Undeclared(raw: int)

  /** The exceptions that the code throws and the outer catch swallows. */
  datatype Exception =
    | ArgumentOutOfRange   // DefaultWrapperApi on an unsupported platform
    | IndexOutOfRange      // the version has too few '.'-separated segments
    | AssemblyLoadFailure  // any step of the reflection chain throws
    | NullReference        // the property's value is null, ToString throws

  /** What the reflection chain yields for an assembly path, a type name and
      a static property name. */
  datatype VersionLookup =
    | LoadFailure            // LoadFrom, GetTypes, GetProperty or GetValue throws
    | NotFound               // no such type or property: the chain gives null
    | NullValue              // the property exists and holds null
    | Found(text: string)    // the property value's ToString()

  type Reflection = (string, string, string) -> VersionLookup

  datatype HostEnvironment = HostEnvironment(
    platformId: int,                       // Environment.OSVersion.Platform
    osVersion: string,                     // Environment.OSVersion.VersionString
    processArchitecture: string,           // RuntimeInformation.ProcessArchitecture.ToString()
    coreAssemblyDirectory: Option<string>, // Path.GetDirectoryName(core assembly location)
    pathStyle: PathStyle)                  // the path rules of the running OS

  // ---------------------------------------------------------------------
  // Platform
  // ---------------------------------------------------------------------

  const DarwinMarker: string := "darwin"

  /** `IsRunningOnMac`: the lowercased OS version string mentions "darwin". */
  function IsRunningOnMac(osVersion: string): bool {
    Contains(ToLower(osVersion), DarwinMarker)
  }

  predicate IsWindowsFamilyId(platformId: int) {
    platformId in {PlatformIdWin32S, PlatformIdWin32Windows, PlatformIdWin32NT, PlatformIdWinCE, PlatformIdXbox}
  }

  predicate IsUnixId(platformId: int) {
    platformId == PlatformIdUnix || platformId == PlatformIdMonoUnix
  }

  /** The `Platform` property: classify the OS platform id. */
  function Platform(platformId: int, osVersion: string): ChromelyPlatform {
    if platformId == PlatformIdMacOSX then MacOSX
    else if platformId == PlatformIdUnix || platformId == PlatformIdMonoUnix then
      (if IsRunningOnMac(osVersion) then MacOSX else Linux)
    else if platformId == PlatformIdWin32NT || platformId == PlatformIdWin32S
         || platformId == PlatformIdWin32Windows || platformId == PlatformIdWinCE
         || platformId == PlatformIdXbox then Windows
    else NotSupported
  }

  function CurrentPlatform(env: HostEnvironment): ChromelyPlatform {
    Platform(env.platformId, env.osVersion)
  }

  /** Every platform id gets exactly one classification, and each one is
      reached from exactly the ids listed. */
  lemma PlatformClassification(platformId: int, osVersion: string)
    ensures Platform(platformId, osVersion) == Windows <==> IsWindowsFamilyId(platformId)
    ensures Platform(platformId, osVersion) == MacOSX
      <==> platformId == PlatformIdMacOSX || (IsUnixId(platformId) && IsRunningOnMac(osVersion))
    ensures Platform(platformId, osVersion) == Linux <==> IsUnixId(platformId) && !IsRunningOnMac(osVersion)
    ensures Platform(platformId, osVersion) == NotSupported
      <==> !IsWindowsFamilyId(platformId) && !IsUnixId(platformId) && platformId != PlatformIdMacOSX
  {
  }

  /** Only the Unix ids look at the version string. */
  lemma PlatformIgnoresVersionOffUnix(platformId: int, v1: string, v2: string)
    requires !IsUnixId(platformId)
    ensures Platform(platformId, v1) == Platform(platformId, v2)
  {
  }

  /** Six characters of `v` from `i` on lowercase to "darwin". */
  predicate DarwinAt(v: string, i: nat) {
    i + 6 <= |v| && ToLower(v[i..i + 6]) == DarwinMarker
  }

  /** The test for macOS finds "darwin" in any mix of letter case: it holds
      exactly when some six characters of the version string lowercase to
      "darwin". */
  lemma MacDetectionIgnoresCase(osVersion: string)
    ensures IsRunningOnMac(osVersion)
      <==> exists i: nat :: DarwinAt(osVersion, i)
  {
    var lower := ToLower(osVersion);
    ContainsIsOccurrence(lower, DarwinMarker);
    if IsRunningOnMac(osVersion) {
      var i: nat :| OccursAt(lower, DarwinMarker, i);
      ToLowerSlice(osVersion, i, i + 6);
      assert DarwinAt(osVersion, i);
    } else {
      forall i: nat ensures !DarwinAt(osVersion, i) {
        if i + 6 <= |osVersion| {
          ToLowerSlice(osVersion, i, i + 6);
          assert !OccursAt(lower, DarwinMarker, i);
        }
      }
    }
  }

  const DarwinCapitals: string := "DARWIN"

  /** Each of the six characters of `v` from `i` on is the small or the
      capital letter of "darwin" at that place. */
  predicate DarwinSpelledAt(v: string, i: nat) {
    && i + 6 <= |v|
    && forall k :: 0 <= k < 6 ==> v[i + k] == DarwinMarker[k] || v[i + k] == DarwinCapitals[k]
  }

  /** Six characters lowercase to "darwin" exactly when each is the small or
      the capital letter there. */
  lemma DarwinAtIsSpelling(v: string, i: nat)
    ensures DarwinAt(v, i) <==> DarwinSpelledAt(v, i)
  {
    if i + 6 <= |v| {
      var w := v[i..i + 6];
      forall k | 0 <= k < 6
        ensures ToLower(w)[k] == DarwinMarker[k] <==> v[i + k] == DarwinMarker[k] || v[i + k] == DarwinCapitals[k]
      {
        LowerCharToSmall(w[k], DarwinMarker[k]);
        assert k == 0 || k == 1 || k == 2 || k == 3 || k == 4 || k == 5;
      }
    }
  }

  /** The test for macOS accepts "darwin" in every mix of letter case: it
      holds exactly when some six consecutive characters spell "darwin"
      with each letter small or capital. */
  lemma MacDetectionAnyCase(osVersion: string)
    ensures IsRunningOnMac(osVersion)
      <==> exists i: nat :: DarwinSpelledAt(osVersion, i)
  {
    MacDetectionIgnoresCase(osVersion);
    forall i: nat ensures DarwinAt(osVersion, i) <==> DarwinSpelledAt(osVersion, i) {
      DarwinAtIsSpelling(osVersion, i);
    }
  }

  /** A Unix version string that starts with "Darwin " is classified as
      macOS, whatever follows. */
  lemma DarwinKernelIsMac(kernelRelease: string)
    ensures Platform(PlatformIdUnix, "Darwin " + kernelRelease) == MacOSX
  {
    var v := "Darwin " + kernelRelease;
    assert ToLower(v[0..6]) == DarwinMarker;
    assert DarwinAt(v, 0);
    MacDetectionIgnoresCase(v);
  }

  // ---------------------------------------------------------------------
  // Wrapper variant
  // ---------------------------------------------------------------------

  /** The platform-to-variant table that `DefaultWrapperApi` switches over. */
  const VariantTable: map<ChromelyPlatform, string> :=
    map[Windows := "Winapi", Linux := "Gtk", MacOSX := "Libui"]

  /** `DefaultWrapperApi`: the variant for a supported platform; an
      `ArgumentOutOfRangeException` otherwise, never a silent default. */
  function DefaultWrapperApi(platform: ChromelyPlatform): (r: Result<string, Exception>)
    ensures r.Ok? <==> platform in VariantTable
    ensures r.Ok? ==> r.value == VariantTable[platform]
    ensures r.Err? ==> r.error == ArgumentOutOfRange
  {
    match platform
    case Windows => Ok("Winapi")
    case Linux => Ok("Gtk")
    case MacOSX => Ok("Libui")
    case NotSupported => Err(ArgumentOutOfRange)
  }

  /** Exactly the unsupported platform fails, and different supported
      platforms get different variants. */
  lemma DefaultWrapperApiTotalOnSupported(p: ChromelyPlatform, q: ChromelyPlatform)
    ensures DefaultWrapperApi(p).Err? <==> p == NotSupported
    ensures DefaultWrapperApi(p).Ok? && DefaultWrapperApi(p) == DefaultWrapperApi(q) ==> p == q
  {
  }

  // ---------------------------------------------------------------------
  // Assembly name
  // ---------------------------------------------------------------------

  /** `wrapper.ToString()`: the member's name, or the number for a value
      that names no member. */
  function WrapperName(wrapper: ChromelyCefWrapper): string {
    match wrapper
    case CefGlue => "CefGlue"
    case CefSharp => "CefSharp"
    case Undeclared(n) => IntToString(n)
  }

  /** The file name template `Chromely.{wrapper}.{api}.dll`. */
  function AssemblyFileName(wrapperName: string, api: string): (r: string)
    ensures "Chromely." <= r
  {
    "Chromely." + wrapperName + "." + api + ".dll"
  }

  /** The directory of the core assembly, "." when it has none. */
  function BaseDirectory(env: HostEnvironment): string {
    env.coreAssemblyDirectory.GetOr(".")
  }

  /** The variant to load: CefSharp always uses "Winapi". */
  function WrapperApi(env: HostEnvironment, wrapper: ChromelyCefWrapper): (r: Result<string, Exception>)
    ensures r.Err? <==> wrapper != CefSharp && CurrentPlatform(env) == NotSupported
    ensures r.Ok? ==> r.value == if wrapper == CefSharp then "Winapi" else VariantTable[CurrentPlatform(env)]
  {
    if wrapper == CefSharp then Ok("Winapi") else DefaultWrapperApi(CurrentPlatform(env))
  }

  /** `GetWrapperAssemblyName`: the wrapper's assembly inside the core
      assembly's directory; it fails exactly when the variant lookup does. */
  function GetWrapperAssemblyName(env: HostEnvironment, wrapper: ChromelyCefWrapper): (r: Result<string, Exception>)
    ensures r.Err? <==> wrapper != CefSharp && CurrentPlatform(env) == NotSupported
    ensures r.Err? ==> r.error == ArgumentOutOfRange
    ensures r.Ok? ==>
      r.value == DirectoryPrefix(env.pathStyle, BaseDirectory(env))
        + AssemblyFileName(WrapperName(wrapper),
            if wrapper == CefSharp then "Winapi" else VariantTable[CurrentPlatform(env)])
  {
    match WrapperApi(env, wrapper)
    case Err(e) => Err(e)
    case Ok(api) =>
      Ok(Combine(env.pathStyle, BaseDirectory(env), AssemblyFileName(WrapperName(wrapper), api)))
  }

  /** The CefSharp assembly name does not depend on the platform at all. */
  lemma CefSharpAssemblyIgnoresPlatform(env1: HostEnvironment, env2: HostEnvironment)
    requires env1.coreAssemblyDirectory == env2.coreAssemblyDirectory
    requires env1.pathStyle == env2.pathStyle
    ensures GetWrapperAssemblyName(env1, CefSharp) == GetWrapperAssemblyName(env2, CefSharp)
    ensures GetWrapperAssemblyName(env1, CefSharp).Ok?
  {
  }

  // ---------------------------------------------------------------------
  // Path rewriting
  // ---------------------------------------------------------------------

  const GtkInfix: string := ".CefGlue.Gtk."
  const WinapiInfix: string := ".CefGlue.Winapi."
  const CommonInfix: string := ".CefGlue."

  /** CefGlue loads one common assembly: rewrite the Gtk variant, then the
      Winapi variant, to the platform-neutral name. */
  function CefGlueCommonAssembly(dllName: string): string {
    Replace(Replace(dllName, GtkInfix, CommonInfix), WinapiInfix, CommonInfix)
  }

  const CefSharpWinapiName: string := "Chromely.CefSharp.Winapi"

  /** CefSharp loads `CefSharp.Core` from the architecture's subdirectory. */
  function CefSharpCoreAssembly(style: PathStyle, architecture: string, dllName: string): string {
    Replace(dllName, CefSharpWinapiName, Combine(style, architecture, "CefSharp.Core"))
  }

  /** A directory prefix as `Path.Combine` produces it: empty or ending in a
      separator, and free of `pattern`. */
  predicate CleanPrefix(style: PathStyle, prefix: string, pattern: string) {
    (prefix == [] || IsDirectorySeparator(style, prefix[|prefix| - 1])) && !Contains(prefix, pattern)
  }

  /** A directory without `pattern` gives a clean prefix. */
  lemma DirectoryPrefixClean(style: PathStyle, directory: string, pattern: string)
    requires pattern != [] && '/' !in pattern && '\\' !in pattern
    requires !Contains(directory, pattern)
    ensures CleanPrefix(style, DirectoryPrefix(style, directory), pattern)
  {
    if DirectoryPrefix(style, directory) != directory {
      ContainsAppendChar(directory, DirectorySeparator(style), pattern);
    }
  }

  lemma GtkFileName()
    ensures AssemblyFileName("CefGlue", "Gtk") == "Chromely" + (GtkInfix + "dll")
  {
  }

  // The file-name lemmas below also state each name cut into pieces that
  // are shorter than the infix being replaced and end in a character it
  // does not contain (".CefGlue.W" ends in 'W', ".CefGlue.L" in 'L'): in
  // that form `ReplaceKeeps2` and `ReplaceKeeps3` show each piece is copied
  // unchanged.

  lemma WinapiFileName()
    ensures AssemblyFileName("CefGlue", "Winapi") == "Chromely" + (".CefGlue.W" + "inapi.dll")
    ensures AssemblyFileName("CefGlue", "Winapi") == "Chromely" + (WinapiInfix + "dll")
  {
  }

  lemma LibuiFileName()
    ensures AssemblyFileName("CefGlue", "Libui") == "Chromely" + (".CefGlue.L" + "ibui.dll")
    ensures AssemblyFileName("CefGlue", "Libui") == "Chromely.CefGlue.Libui.dll"
  {
  }

  lemma CommonFileName()
    ensures "Chromely" + (CommonInfix + "dll") == "Chromely.CefGlue.dll"
    ensures "Chromely" + ".CefGlue.dll" == "Chromely.CefGlue.dll"
  {
  }

  /** After a clean prefix, pieces shorter than the pattern, each but the
      last ending in a character outside it, are copied as they are. */
  lemma ReplaceKeeps3(prefix: string, a: string, b: string, c: string, oldValue: string, newValue: string)
    requires oldValue != [] && |a| < |oldValue| && |b| < |oldValue| && |c| < |oldValue|
    requires prefix == [] || prefix[|prefix| - 1] !in oldValue
    requires !Contains(prefix, oldValue)
    requires a != [] && a[|a| - 1] !in oldValue && b != [] && b[|b| - 1] !in oldValue
    ensures Replace(prefix + (a + (b + c)), oldValue, newValue) == prefix + (a + (b + c))
  {
    ReplaceAbsent(prefix, oldValue, newValue);
    ReplaceAppendShort(prefix, a, oldValue, newValue);
    ReplaceAppendShort(prefix + a, b, oldValue, newValue);
    ReplaceAppendShort(prefix + a + b, c, oldValue, newValue);
    assert prefix + (a + (b + c)) == prefix + a + b + c;
  }

  lemma ReplaceKeeps2(prefix: string, a: string, b: string, oldValue: string, newValue: string)
    requires oldValue != [] && |a| < |oldValue| && |b| < |oldValue|
    requires prefix == [] || prefix[|prefix| - 1] !in oldValue
    requires !Contains(prefix, oldValue)
    requires a != [] && a[|a| - 1] !in oldValue
    ensures Replace(prefix + (a + b), oldValue, newValue) == prefix + (a + b)
  {
    ReplaceAbsent(prefix, oldValue, newValue);
    ReplaceAppendShort(prefix, a, oldValue, newValue);
    ReplaceAppendShort(prefix + a, b, oldValue, newValue);
    assert prefix + (a + b) == prefix + a + b;
  }

  /** One occurrence between a short head and a short tail is replaced. */
  lemma ReplaceOne(prefix: string, head: string, oldValue: string, newValue: string, tail: string)
    requires oldValue != [] && |head| < |oldValue| && |tail| < |oldValue|
    requires prefix == [] || prefix[|prefix| - 1] !in oldValue
    requires !Contains(prefix, oldValue)
    requires head != [] && head[|head| - 1] !in oldValue
    ensures Replace(prefix + (head + (oldValue + tail)), oldValue, newValue) == prefix + (head + (newValue + tail))
  {
    ReplaceAbsent(prefix, oldValue, newValue);
    ReplaceAppendShort(prefix, head, oldValue, newValue);
    ReplaceAppendMatch(prefix + head, oldValue, newValue, tail);
    ConcatAssociates(prefix, head, oldValue + tail);
    ConcatAssociates(prefix, head, newValue + tail);
  }

  /** The common CefGlue assembly name is a fixed point of the rewriting. */
  lemma CommonNameStays(style: PathStyle, prefix: string)
    requires CleanPrefix(style, prefix, WinapiInfix)
    ensures Replace(prefix + "Chromely.CefGlue.dll", WinapiInfix, CommonInfix) == prefix + "Chromely.CefGlue.dll"
  {
    ReplaceKeeps2(prefix, "Chromely", ".CefGlue.dll", WinapiInfix, CommonInfix);
    CommonFileName();
  }

  /** "Use common assembly": the Gtk CefGlue assembly becomes
      `Chromely.CefGlue.dll` in the same directory. */
  lemma GtkNameCollapses(style: PathStyle, prefix: string)
    requires CleanPrefix(style, prefix, GtkInfix) && CleanPrefix(style, prefix, WinapiInfix)
    ensures CefGlueCommonAssembly(prefix + AssemblyFileName("CefGlue", "Gtk")) == prefix + "Chromely.CefGlue.dll"
  {
    GtkFileName();
    CommonFileName();
    ReplaceOne(prefix, "Chromely", GtkInfix, CommonInfix, "dll");
    CommonNameStays(style, prefix);
  }

  /** The Winapi CefGlue assembly becomes the same `Chromely.CefGlue.dll`. */
  lemma WinapiNameCollapses(style: PathStyle, prefix: string)
    requires CleanPrefix(style, prefix, GtkInfix) && CleanPrefix(style, prefix, WinapiInfix)
    ensures CefGlueCommonAssembly(prefix + AssemblyFileName("CefGlue", "Winapi")) == prefix + "Chromely.CefGlue.dll"
  {
    WinapiFileName();
    CommonFileName();
    ReplaceKeeps3(prefix, "Chromely", ".CefGlue.W", "inapi.dll", GtkInfix, CommonInfix);
    ReplaceOne(prefix, "Chromely", WinapiInfix, CommonInfix, "dll");
  }

  /** The Libui CefGlue assembly is not rewritten. */
  lemma LibuiNameStays(style: PathStyle, prefix: string)
    requires CleanPrefix(style, prefix, GtkInfix) && CleanPrefix(style, prefix, WinapiInfix)
    ensures CefGlueCommonAssembly(prefix + AssemblyFileName("CefGlue", "Libui")) == prefix + AssemblyFileName("CefGlue", "Libui")
  {
    LibuiFileName();
    ReplaceKeeps3(prefix, "Chromely", ".CefGlue.L", "ibui.dll", GtkInfix, CommonInfix);
    ReplaceKeeps3(prefix, "Chromely", ".CefGlue.L", "ibui.dll", WinapiInfix, CommonInfix);
  }

  lemma CefSharpFileName()
    ensures AssemblyFileName("CefSharp", "Winapi") == CefSharpWinapiName + ".dll"
  {
  }

  /** The replacement text: `{arch}/CefSharp.Core`, ready for ".dll". */
  lemma CefSharpCoreName(style: PathStyle, architecture: string)
    ensures Combine(style, architecture, "CefSharp.Core") + ".dll"
      == DirectoryPrefix(style, architecture) + "CefSharp.Core.dll"
  {
    assert !IsPathRooted(style, "CefSharp.Core");
  }

  /** `dir/Chromely.CefSharp.Winapi.dll` becomes `dir/{arch}/CefSharp.Core.dll`. */
  lemma CefSharpPathRewrite(style: PathStyle, prefix: string, architecture: string)
    requires CleanPrefix(style, prefix, CefSharpWinapiName)
    ensures CefSharpCoreAssembly(style, architecture, prefix + AssemblyFileName("CefSharp", "Winapi"))
      == prefix + (DirectoryPrefix(style, architecture) + "CefSharp.Core.dll")
  {
    var core := Combine(style, architecture, "CefSharp.Core");
    CefSharpFileName();
    CefSharpCoreName(style, architecture);
    ReplaceAbsent(prefix, CefSharpWinapiName, core);
    ReplaceConcat(prefix, CefSharpWinapiName + ".dll", CefSharpWinapiName, core);
    ReplaceLeading(CefSharpWinapiName, ".dll", core);
    ReplaceShort(".dll", CefSharpWinapiName, core);
  }

  // ---------------------------------------------------------------------
  // Build extraction
  // ---------------------------------------------------------------------

  /** The Chromium build read from a version lookup: segment `segment` of
      the '.'-split version, 0 when the lookup gives null or an empty string
      or when that segment is not an Int32, and an exception when the lookup
      throws or there is no such segment. */
  function BuildFromVersion(lookup: VersionLookup, segment: nat): (r: Result<int, Exception>)
    ensures r.Ok? ==> InInt32(r.value)
    ensures r.Err? <==>
      || lookup.LoadFailure? || lookup.NullValue?
      || (lookup.Found? && lookup.text != [] && Count(lookup.text, '.') < segment)
  {
    match lookup
    case LoadFailure => Err(AssemblyLoadFailure)
    case NullValue => Err(NullReference)
    case NotFound => Ok(0)
    case Found(version) =>
      if version == [] then Ok(0)
      else
        var parts := Split(version, '.');
        if segment < |parts| then Ok(ParseInt32(parts[segment]).GetOr(0))
        else Err(IndexOutOfRange)
  }

  /** A version made of '.'-free segments yields the number that TryParse
      reads from the chosen segment, whatever its white space, sign or
      leading zeros. */
  lemma BuildFromSegments(segments: seq<string>, segment: nat, build: int)
    requires segment < |segments|
    requires forall i :: 0 <= i < |segments| ==> '.' !in segments[i]
    requires ParseInt32(segments[segment]) == Some(build)
    ensures BuildFromVersion(Found(Join(segments, '.')), segment) == Ok(build)
  {
    SplitJoin(segments, '.');
    assert |segments| == 1 ==> Join(segments, '.') == segments[0];
  }

  /** In particular a segment holding the decimal text of an Int32 yields
      that number. */
  lemma CanonicalBuildFromSegments(segments: seq<string>, segment: nat, build: int)
    requires segment < |segments|
    requires forall i :: 0 <= i < |segments| ==> '.' !in segments[i]
    requires InInt32(build) && segments[segment] == IntToString(build)
    ensures BuildFromVersion(Found(Join(segments, '.')), segment) == Ok(build)
  {
    ParseIntToString(build);
    BuildFromSegments(segments, segment, build);
  }

  /** A segment that is not an Int32 gives 0, not an exception. */
  lemma UnparsableSegment(segments: seq<string>, segment: nat)
    requires segment < |segments|
    requires forall i :: 0 <= i < |segments| ==> '.' !in segments[i]
    requires ParseInt32(segments[segment]).None?
    ensures BuildFromVersion(Found(Join(segments, '.')), segment) == Ok(0)
  {
    SplitJoin(segments, '.');
  }

  /** The CefGlue example: "3.3163.1838.g4a5ae76" has build 1838. */
  lemma CefGlueVersionExample()
    ensures BuildFromVersion(Found("3.3163.1838.g4a5ae76"), 2) == Ok(1838)
  {
    CefGlueVersionSegments();
    PrintBuild1838();
    CanonicalBuildFromSegments(["3", "3163", "1838", "g4a5ae76"], 2, 1838);
  }

  lemma CefGlueVersionSegments()
    ensures Join(["3", "3163", "1838", "g4a5ae76"], '.') == "3.3163.1838.g4a5ae76"
  {
  }

  lemma PrintBuild1838()
    ensures IntToString(1838) == "1838"
  {
  }

  /** TryParse tolerance carries over: " +01838 " in segment 2 is build 1838. */
  lemma PaddedBuildExample()
    ensures BuildFromVersion(Found("3.3163. +01838 .g4a5ae76"), 2) == Ok(1838)
  {
    PaddedVersionSegments();
    PaddedSegmentParses();
    BuildFromSegments(["3", "3163", " +01838 ", "g4a5ae76"], 2, 1838);
  }

  lemma PaddedVersionSegments()
    ensures Join(["3", "3163", " +01838 ", "g4a5ae76"], '.') == "3.3163. +01838 .g4a5ae76"
  {
  }

  lemma PaddedSegmentParses()
    ensures ParseInt32(" +01838 ") == Some(1838)
  {
    assert " +01838 "[1..] == "+01838 ";
    assert TrimStart(" +01838 ") == "+01838 ";
    assert "+01838 "[..6] == "+01838";
    assert !IsWhiteSpace("+01838"[5]);
    assert TrimEnd("+01838") == "+01838";
    assert TrimEnd("+01838 ") == "+01838";
    assert "+01838"[1..] == "01838";
    assert "01838"[..4] == "0183" && "0183"[..3] == "018" && "018"[..2] == "01" && "01"[..1] == "0";
    assert DigitsValue("01838") == 1838;
  }

  /** The CefSharp example: "75.1.14" has build 1. */
  lemma CefSharpVersionExample()
    ensures BuildFromVersion(Found("75.1.14"), 1) == Ok(1)
  {
    var segments := ["75", "1", "14"];
    assert Join(segments, '.') == "75.1.14";
    assert IntToString(1) == "1";
    CanonicalBuildFromSegments(segments, 1, 1);
  }

  /** Too few segments throw: "1.2" has no segment 2, "75" no segment 1. */
  lemma ShortVersionExamples()
    ensures BuildFromVersion(Found("1.2"), 2) == Err(IndexOutOfRange)
    ensures BuildFromVersion(Found("75"), 1) == Err(IndexOutOfRange)
  {
    var two := ["1", "2"];
    assert Join(two, '.') == "1.2";
    SplitJoin(two, '.');
    var one := ["75"];
    assert Join(one, '.') == "75";
    SplitJoin(one, '.');
  }

  const CefGlueTypeName: string := "CefRuntime"
  const CefGlueVersionProperty: string := "ChromeVersion"
  const CefGlueBuildSegment: nat := 2
  const CefSharpTypeName: string := "Cef"
  const CefSharpVersionProperty: string := "CefVersion"
  const CefSharpBuildSegment: nat := 1

  /** `GetExpectedChromiumBuildNumberCefGlue`: read `CefRuntime.ChromeVersion`
      from the common CefGlue assembly. */
  function GetExpectedChromiumBuildNumberCefGlue(dllName: string, reflection: Reflection): (r: Result<int, Exception>)
    ensures r.Ok? ==> InInt32(r.value)
  {
    BuildFromVersion(reflection(CefGlueCommonAssembly(dllName), CefGlueTypeName, CefGlueVersionProperty),
                     CefGlueBuildSegment)
  }

  /** `GetExpectedChromiumBuildNumberCefSharp`: read `Cef.CefVersion` from
      `CefSharp.Core` in the architecture's subdirectory. */
  function GetExpectedChromiumBuildNumberCefSharp(env: HostEnvironment, dllName: string, reflection: Reflection)
    : (r: Result<int, Exception>)
    ensures r.Ok? ==> InInt32(r.value)
  {
    BuildFromVersion(
      reflection(CefSharpCoreAssembly(env.pathStyle, env.processArchitecture, dllName),
                 CefSharpTypeName, CefSharpVersionProperty),
      CefSharpBuildSegment)
  }

  /** The body of the `try` in `GetExpectedChromiumBuildNumber`. */
  function ExpectedBuild(env: HostEnvironment, wrapper: ChromelyCefWrapper, reflection: Reflection)
    : (r: Result<int, Exception>)
    ensures r.Ok? ==> InInt32(r.value)
    ensures wrapper.Undeclared? ==> r == Ok(0)
  {
    match wrapper
    case CefGlue =>
      (match GetWrapperAssemblyName(env, wrapper)
       case Err(e) => Err(e)
       case Ok(dllName) => GetExpectedChromiumBuildNumberCefGlue(dllName, reflection))
    case CefSharp =>
      (match GetWrapperAssemblyName(env, wrapper)
       case Err(e) => Err(e)
       case Ok(dllName) => GetExpectedChromiumBuildNumberCefSharp(env, dllName, reflection))
    case Undeclared(_) => Ok(0)
  }

  /** `GetExpectedChromiumBuildNumber`: never throws; every exception is
      caught and reported as build 0. */
  function GetExpectedChromiumBuildNumber(env: HostEnvironment, wrapper: ChromelyCefWrapper, reflection: Reflection)
    : (build: int)
    ensures InInt32(build)
    ensures ExpectedBuild(env, wrapper, reflection).Err? ==> build == 0
    ensures ExpectedBuild(env, wrapper, reflection).Ok? ==> build == ExpectedBuild(env, wrapper, reflection).value
  {
    ExpectedBuild(env, wrapper, reflection).GetOr(0)
  }

  /** `version` has segment `segment` and it is the Int32 `build`. */
  predicate SegmentParsesTo(lookup: VersionLookup, segment: nat, build: int) {
    && lookup.Found? && lookup.text != []
    && segment <= Count(lookup.text, '.')
    && ParseInt32(Split(lookup.text, '.')[segment]) == Some(build)
  }

  /** A build other than 0 comes only from a declared wrapper whose assembly
      name resolved and whose version has that number in the right segment. */
  lemma NonZeroBuildIsParsed(env: HostEnvironment, wrapper: ChromelyCefWrapper, reflection: Reflection)
    requires GetExpectedChromiumBuildNumber(env, wrapper, reflection) != 0
    ensures GetWrapperAssemblyName(env, wrapper).Ok?
    ensures var build := GetExpectedChromiumBuildNumber(env, wrapper, reflection);
            var dllName := GetWrapperAssemblyName(env, wrapper).value;
            || (wrapper == CefGlue
                && SegmentParsesTo(reflection(CefGlueCommonAssembly(dllName), CefGlueTypeName, CefGlueVersionProperty),
                                   CefGlueBuildSegment, build))
            || (wrapper == CefSharp
                && SegmentParsesTo(reflection(CefSharpCoreAssembly(env.pathStyle, env.processArchitecture, dllName),
                                              CefSharpTypeName, CefSharpVersionProperty),
                                   CefSharpBuildSegment, build))
  {
  }

  /** Every failure reads as 0: an undeclared wrapper, CefGlue on an
      unsupported platform, and a reflection that never finds a version. */
  lemma FailuresReadAsZero(env: HostEnvironment, wrapper: ChromelyCefWrapper, reflection: Reflection)
    ensures wrapper.Undeclared? ==> GetExpectedChromiumBuildNumber(env, wrapper, reflection) == 0
    ensures wrapper == CefGlue && CurrentPlatform(env) == NotSupported
      ==> GetExpectedChromiumBuildNumber(env, wrapper, reflection) == 0
    ensures (forall p, t, n :: !reflection(p, t, n).Found?)
      ==> GetExpectedChromiumBuildNumber(env, wrapper, reflection) == 0
  {
  }

  /** End to end for CefGlue on Windows and Linux: the common assembly next
      to the core assembly is asked for `CefRuntime.ChromeVersion`. */
  lemma CefGlueLooksUpCommonAssembly(env: HostEnvironment, reflection: Reflection)
    requires CurrentPlatform(env) == Windows || CurrentPlatform(env) == Linux
    requires !Contains(BaseDirectory(env), GtkInfix) && !Contains(BaseDirectory(env), WinapiInfix)
    ensures ExpectedBuild(env, CefGlue, reflection)
      == BuildFromVersion(
           reflection(DirectoryPrefix(env.pathStyle, BaseDirectory(env)) + "Chromely.CefGlue.dll",
                      CefGlueTypeName, CefGlueVersionProperty),
           CefGlueBuildSegment)
  {
    var prefix := DirectoryPrefix(env.pathStyle, BaseDirectory(env));
    DirectoryPrefixClean(env.pathStyle, BaseDirectory(env), GtkInfix);
    DirectoryPrefixClean(env.pathStyle, BaseDirectory(env), WinapiInfix);
    GtkNameCollapses(env.pathStyle, prefix);
    WinapiNameCollapses(env.pathStyle, prefix);
  }

  /** End to end for CefGlue on macOS: the Libui assembly is asked. */
  lemma CefGlueLooksUpLibuiAssembly(env: HostEnvironment, reflection: Reflection)
    requires CurrentPlatform(env) == MacOSX
    requires !Contains(BaseDirectory(env), GtkInfix) && !Contains(BaseDirectory(env), WinapiInfix)
    ensures ExpectedBuild(env, CefGlue, reflection)
      == BuildFromVersion(
           reflection(DirectoryPrefix(env.pathStyle, BaseDirectory(env)) + "Chromely.CefGlue.Libui.dll",
                      CefGlueTypeName, CefGlueVersionProperty),
           CefGlueBuildSegment)
  {
    var prefix := DirectoryPrefix(env.pathStyle, BaseDirectory(env));
    DirectoryPrefixClean(env.pathStyle, BaseDirectory(env), GtkInfix);
    DirectoryPrefixClean(env.pathStyle, BaseDirectory(env), WinapiInfix);
    LibuiNameStays(env.pathStyle, prefix);
    LibuiFileName();
  }

  /** End to end for CefSharp on any platform: `CefSharp.Core` in the
      architecture's subdirectory is asked for `Cef.CefVersion`. */
  lemma CefSharpLooksUpCoreAssembly(env: HostEnvironment, reflection: Reflection)
    requires !Contains(BaseDirectory(env), CefSharpWinapiName)
    ensures ExpectedBuild(env, CefSharp, reflection)
      == BuildFromVersion(
           reflection(DirectoryPrefix(env.pathStyle, BaseDirectory(env))
                        + (DirectoryPrefix(env.pathStyle, env.processArchitecture) + "CefSharp.Core.dll"),
                      CefSharpTypeName, CefSharpVersionProperty),
           CefSharpBuildSegment)
  {
    var prefix := DirectoryPrefix(env.pathStyle, BaseDirectory(env));
    DirectoryPrefixClean(env.pathStyle, BaseDirectory(env), CefSharpWinapiName);
    CefSharpPathRewrite(env.pathStyle, prefix, env.processArchitecture);
  }

  /** CefGlue on Linux whose common assembly reports "3.3163.1838.g4a5ae76"
      expects build 1838. */
  lemma CefGlueOnLinuxExample(env: HostEnvironment, reflection: Reflection)
    requires CurrentPlatform(env) == Linux
    requires !Contains(BaseDirectory(env), GtkInfix) && !Contains(BaseDirectory(env), WinapiInfix)
    requires reflection(DirectoryPrefix(env.pathStyle, BaseDirectory(env)) + "Chromely.CefGlue.dll",
                        CefGlueTypeName, CefGlueVersionProperty) == Found("3.3163.1838.g4a5ae76")
    ensures GetExpectedChromiumBuildNumber(env, CefGlue, reflection) == 1838
  {
    CefGlueLooksUpCommonAssembly(env, reflection);
    CefGlueVersionExample();
  }

  /** CefSharp whose core assembly reports "75.1.14" expects build 1. */
  lemma CefSharpExample(env: HostEnvironment, reflection: Reflection)
    requires !Contains(BaseDirectory(env), CefSharpWinapiName)
    requires reflection(DirectoryPrefix(env.pathStyle, BaseDirectory(env))
                          + (DirectoryPrefix(env.pathStyle, env.processArchitecture) + "CefSharp.Core.dll"),
                        CefSharpTypeName, CefSharpVersionProperty) == Found("75.1.14")
    ensures GetExpectedChromiumBuildNumber(env, CefSharp, reflection) == 1
  {
    CefSharpLooksUpCoreAssembly(env, reflection);
    CefSharpVersionExample();
  }

  /** A CefSharp core assembly that is not there reads as build 0. */
  lemma MissingCefSharpAssemblyReadsAsZero(env: HostEnvironment, reflection: Reflection)
    requires !Contains(BaseDirectory(env), CefSharpWinapiName)
    requires reflection(DirectoryPrefix(env.pathStyle, BaseDirectory(env))
                          + (DirectoryPrefix(env.pathStyle, env.processArchitecture) + "CefSharp.Core.dll"),
                        CefSharpTypeName, CefSharpVersionProperty) == LoadFailure
    ensures ExpectedBuild(env, CefSharp, reflection) == Err(AssemblyLoadFailure)
    ensures GetExpectedChromiumBuildNumber(env, CefSharp, reflection) == 0
  {
    CefSharpLooksUpCoreAssembly(env, reflection);
  }
}

# Chromely runtime resolution, modelled in Dafny

Chromely hosts a desktop application in a Chromium browser through one of two
bindings to the Chromium Embedded Framework (CEF): CefGlue or CefSharp. The
static class `Chromely.Core.ChromelyRuntime` decides at start-up how to do that:

- it classifies the operating system (`Platform`, `IsRunningOnMac`);
- it picks the platform variant of the wrapper assembly (`DefaultWrapperApi`:
  Winapi, Gtk or Libui);
- it builds the wrapper assembly's path (`GetWrapperAssemblyName`);
- it reads the Chromium build that the wrapper expects
  (`GetExpectedChromiumBuildNumber` and its CefGlue and CefSharp halves).

That last step rewrites the assembly path. It then loads the assembly by
reflection, reads a static version property, splits the version on '.' and
parses one segment. Every exception on the way becomes build 0.

The model is pure, like the source:

- `wrappers.dfy` defines `Option` and `Result`. `Err(e)` means "exception `e`
  is thrown here".
- `dotnet_strings.dfy` models the .NET string operations the code uses:
  `ToLower`, ordinal `Contains` and all-occurrence `Replace`, `Split(char)`,
  `Int32.TryParse` and `Int32.ToString`. Each comes with its partner
  properties: occurrence, no straddling across a boundary, `Join`/`Split`
  round trips, and parse/print round trips.
- `dotnet_path.dfy` models `Path.Combine` under Windows or Unix path rules.
- `chromely_runtime.dfy` models the class itself and proves its properties.

The environment the source reads becomes the parameter `HostEnvironment`. It
holds:

- the `PlatformID` as an integer, so that 128 and unnamed values are covered;
- the OS version string;
- the process architecture's name;
- the directory of the core assembly (`None` where `Path.GetDirectoryName`
  gives null);
- the path style.

The reflection chain `Assembly.LoadFrom` → `GetTypes` → `FirstOrDefault` →
`GetProperty` → `GetValue` → `ToString` becomes an oracle. It takes an
assembly path, a type name and a property name, and answers `LoadFailure`
(any step of the chain throws: `LoadFrom`, `GetTypes`, an ambiguous
`GetProperty`, or a `GetValue` whose getter throws), `NotFound` (the `?.` chain gives null), `NullValue`
(`ToString` on null throws) or `Found(text)`.

## Model

| member | source | states |
|---|---|---|
| `ChromelyRuntime.Platform` | src/Chromely.Core/ChromelyRuntime.cs:84-111 | The `Platform` switch over the platform id. What it returns for each id is stated by `PlatformClassification` and `PlatformIgnoresVersionOffUnix`. |
| `ChromelyRuntime.IsRunningOnMac` | src/Chromely.Core/ChromelyRuntime.cs:114-118 | Lowercase the version string, then scan it for "darwin". What it accepts is stated by `MacDetectionIgnoresCase` and `MacDetectionAnyCase`. |
| `ChromelyRuntime.PlatformClassification` | src/Chromely.Core/ChromelyRuntime.cs:84-111 | Win32S, Win32Windows, Win32NT, WinCE and Xbox give Windows. MacOSX gives MacOSX. Unix and 128 give MacOSX exactly when the version mentions darwin, and Linux otherwise. Every other id gives NotSupported. Each case is an if-and-only-if. |
| `ChromelyRuntime.PlatformIgnoresVersionOffUnix` | src/Chromely.Core/ChromelyRuntime.cs:88-108 | Outside the two Unix ids, the version string has no effect on the classification. |
| `ChromelyRuntime.MacDetectionIgnoresCase` | src/Chromely.Core/ChromelyRuntime.cs:114-118 | `IsRunningOnMac` holds exactly when six consecutive characters of the version string lowercase to "darwin", in any letter case. |
| `ChromelyRuntime.DarwinAtIsSpelling` | src/Chromely.Core/ChromelyRuntime.cs:117-117 | Six characters lowercase to "darwin" exactly when each one is the small or the capital letter at its place. |
| `ChromelyRuntime.MacDetectionAnyCase` | src/Chromely.Core/ChromelyRuntime.cs:114-118 | `IsRunningOnMac` holds exactly when six consecutive characters spell "darwin" with each letter small or capital, so "Darwin", "DARWIN" and "dArWiN" are all accepted. |
| `ChromelyRuntime.DarwinKernelIsMac` | src/Chromely.Core/ChromelyRuntime.cs:93-97 | Unix with a version starting "Darwin " is classified MacOSX. |
| `ChromelyRuntime.DefaultWrapperApi` | src/Chromely.Core/ChromelyRuntime.cs:120-136 | The variant succeeds exactly on the platforms of the table Windows→Winapi, Linux→Gtk, MacOSX→Libui, and gives that table's entry. Otherwise it throws ArgumentOutOfRange. |
| `ChromelyRuntime.DefaultWrapperApiTotalOnSupported` | src/Chromely.Core/ChromelyRuntime.cs:120-136 | Only NotSupported fails, with no silent default. Distinct supported platforms get distinct variants. |
| `ChromelyRuntime.BaseDirectory` | src/Chromely.Core/ChromelyRuntime.cs:147-148 | The core assembly's directory, or "." when it has none. Its use is stated by `GetWrapperAssemblyName`. |
| `ChromelyRuntime.WrapperName` | src/Chromely.Core/ChromelyRuntime.cs:154-154 | `wrapper.ToString()` in the file name template. Its use is stated by `GetWrapperAssemblyName`. |
| `ChromelyRuntime.WrapperApi` | src/Chromely.Core/ChromelyRuntime.cs:150-152 | The variant fails exactly for a wrapper other than CefSharp on NotSupported. It is "Winapi" for CefSharp on every platform, and the table's variant otherwise. |
| `ChromelyRuntime.AssemblyFileName` | src/Chromely.Core/ChromelyRuntime.cs:154-154 | The file name template `Chromely.{wrapper}.{api}.dll`: the name starts with "Chromely.". Its use is stated by `GetWrapperAssemblyName`. |
| `ChromelyRuntime.GetWrapperAssemblyName` | src/Chromely.Core/ChromelyRuntime.cs:145-156 | The name fails, with ArgumentOutOfRange, exactly for a wrapper other than CefSharp on NotSupported. Otherwise it is the directory (or ".") joined to `Chromely.{wrapper}.{api}.dll`. The api is "Winapi" for CefSharp and the table's variant otherwise. |
| `ChromelyRuntime.CefSharpAssemblyIgnoresPlatform` | src/Chromely.Core/ChromelyRuntime.cs:150-152 | The CefSharp name never fails and gives the same result whatever the platform id and version. |
| `ChromelyRuntime.CefGlueCommonAssembly` | src/Chromely.Core/ChromelyRuntime.cs:44-47 | The two ordered replacements. Their effect on each CefGlue name is stated by `GtkNameCollapses`, `WinapiNameCollapses`, `LibuiNameStays` and `CommonNameStays`. |
| `ChromelyRuntime.CefSharpCoreAssembly` | src/Chromely.Core/ChromelyRuntime.cs:64-66 | The CefSharp replacement. Its effect is stated by `CefSharpPathRewrite`. |
| `ChromelyRuntime.GtkNameCollapses` | src/Chromely.Core/ChromelyRuntime.cs:44-47 | `dir/Chromely.CefGlue.Gtk.dll` is rewritten to `dir/Chromely.CefGlue.dll`. |
| `ChromelyRuntime.WinapiNameCollapses` | src/Chromely.Core/ChromelyRuntime.cs:44-47 | `dir/Chromely.CefGlue.Winapi.dll` is rewritten to the same `dir/Chromely.CefGlue.dll`. |
| `ChromelyRuntime.LibuiNameStays` | src/Chromely.Core/ChromelyRuntime.cs:44-47 | `dir/Chromely.CefGlue.Libui.dll` passes through both replacements unchanged. |
| `ChromelyRuntime.CommonNameStays` | src/Chromely.Core/ChromelyRuntime.cs:47-47 | The second replacement leaves the common name `dir/Chromely.CefGlue.dll` alone. |
| `ChromelyRuntime.CefSharpPathRewrite` | src/Chromely.Core/ChromelyRuntime.cs:64-66 | `dir/Chromely.CefSharp.Winapi.dll` becomes `dir/{arch}/CefSharp.Core.dll`. |
| `ChromelyRuntime.BuildFromVersion` | src/Chromely.Core/ChromelyRuntime.cs:49-59 | Any build returned fits in Int32. The lookup throws exactly when some step of the reflection chain throws (load, `GetTypes`, `GetProperty`, `GetValue`), the value is null, or a non-empty version has fewer '.' than the segment index. |
| `ChromelyRuntime.BuildFromSegments` | src/Chromely.Core/ChromelyRuntime.cs:54-57 | For a version made of '.'-free segments, the result is whatever Int32 TryParse reads from the chosen segment, with any white space, sign or leading zeros. |
| `ChromelyRuntime.CanonicalBuildFromSegments` | src/Chromely.Core/ChromelyRuntime.cs:54-57 | In particular, a segment holding the decimal text of an Int32 gives that number. |
| `ChromelyRuntime.UnparsableSegment` | src/Chromely.Core/ChromelyRuntime.cs:54-59 | A segment that TryParse rejects gives 0, not an exception. |
| `ChromelyRuntime.CefGlueVersionExample` | src/Chromely.Core/ChromelyRuntime.cs:53-58 | "3.3163.1838.g4a5ae76", read at segment 2, gives 1838. |
| `ChromelyRuntime.PaddedBuildExample` | src/Chromely.Core/ChromelyRuntime.cs:53-58 | "3.3163. +01838 .g4a5ae76", read at segment 2, gives 1838. |
| `ChromelyRuntime.CefSharpVersionExample` | src/Chromely.Core/ChromelyRuntime.cs:72-77 | "75.1.14", read at segment 1, gives 1. |
| `ChromelyRuntime.ShortVersionExamples` | src/Chromely.Core/ChromelyRuntime.cs:55-55 | "1.2" at segment 2 and "75" at segment 1 throw IndexOutOfRange. |
| `ChromelyRuntime.GetExpectedChromiumBuildNumberCefGlue` | src/Chromely.Core/ChromelyRuntime.cs:42-60 | Reads `CefRuntime.ChromeVersion` from the rewritten common assembly. Any build it returns fits in Int32. |
| `ChromelyRuntime.GetExpectedChromiumBuildNumberCefSharp` | src/Chromely.Core/ChromelyRuntime.cs:62-79 | Reads `Cef.CefVersion` from the architecture's `CefSharp.Core`. Any build it returns fits in Int32. |
| `ChromelyRuntime.ExpectedBuild` | src/Chromely.Core/ChromelyRuntime.cs:23-33 | Models the `try` body. An undeclared wrapper value falls out of the switch with 0, and every build fits in Int32. |
| `ChromelyRuntime.GetExpectedChromiumBuildNumber` | src/Chromely.Core/ChromelyRuntime.cs:21-40 | Never throws and always returns an Int32. Every exception gives 0, and otherwise the try body's build comes back. |
| `ChromelyRuntime.NonZeroBuildIsParsed` | src/Chromely.Core/ChromelyRuntime.cs:21-78 | A non-zero build comes only from a declared wrapper whose name resolved and whose version has that Int32 in the wrapper's segment. |
| `ChromelyRuntime.FailuresReadAsZero` | src/Chromely.Core/ChromelyRuntime.cs:21-40 | An undeclared wrapper gives 0. CefGlue on NotSupported gives 0. A reflection that never finds a version gives 0. |
| `ChromelyRuntime.CefGlueLooksUpCommonAssembly` | src/Chromely.Core/ChromelyRuntime.cs:27-53 | On Windows and Linux, CefGlue asks for `CefRuntime.ChromeVersion` in `dir/Chromely.CefGlue.dll` and reads segment 2. |
| `ChromelyRuntime.CefGlueLooksUpLibuiAssembly` | src/Chromely.Core/ChromelyRuntime.cs:27-53 | On macOS, CefGlue asks the same of `dir/Chromely.CefGlue.Libui.dll`. |
| `ChromelyRuntime.CefSharpLooksUpCoreAssembly` | src/Chromely.Core/ChromelyRuntime.cs:30-72 | On every platform, CefSharp asks for `Cef.CefVersion` in `dir/{arch}/CefSharp.Core.dll` and reads segment 1. |
| `ChromelyRuntime.CefGlueOnLinuxExample` | src/Chromely.Core/ChromelyRuntime.cs:21-60 | On Linux, a common CefGlue assembly reporting "3.3163.1838.g4a5ae76" gives build 1838. |
| `ChromelyRuntime.CefSharpExample` | src/Chromely.Core/ChromelyRuntime.cs:21-79 | A CefSharp core assembly reporting "75.1.14" gives build 1. |
| `ChromelyRuntime.MissingCefSharpAssemblyReadsAsZero` | src/Chromely.Core/ChromelyRuntime.cs:34-39 | A CefSharp core assembly that cannot be loaded throws, and the caught exception reads as 0. |
| `DotNetStrings.LowerChar` | src/Chromely.Core/ChromelyRuntime.cs:117-117 | A capital letter becomes the small letter at the same place in the alphabet, every other character is kept, and no capital is left. |
| `DotNetStrings.ToLower` | src/Chromely.Core/ChromelyRuntime.cs:117-117 | Lowercasing keeps the length and leaves no ASCII capital. Each capital becomes its small letter (32 code points on), and every other character is kept. |
| `DotNetStrings.LowerCharToSmall` | src/Chromely.Core/ChromelyRuntime.cs:117-117 | The characters that lowercase to a small letter are that letter and its capital, and nothing else. |
| `DotNetStrings.Contains` | src/Chromely.Core/ChromelyRuntime.cs:117-117 | The ordinal scan. What it finds is stated by `ContainsIsOccurrence`. |
| `DotNetStrings.ContainsIsOccurrence` | src/Chromely.Core/ChromelyRuntime.cs:117-117 | The ordinal `Contains` scan succeeds exactly when the pattern occurs at some index. |
| `DotNetStrings.Replace` | src/Chromely.Core/ChromelyRuntime.cs:45-47 | Ordinal, left-to-right, non-overlapping replacement of every occurrence. Its properties are stated by `ReplaceAbsent` and `ReplaceConcat`. |
| `DotNetStrings.ReplaceAbsent` | src/Chromely.Core/ChromelyRuntime.cs:45-47 | Text with no occurrence of the old value comes back unchanged. |
| `DotNetStrings.ReplaceConcat` | src/Chromely.Core/ChromelyRuntime.cs:65-66 | After a character outside the old value, the two sides are rewritten independently, because no occurrence straddles the boundary. |
| `DotNetStrings.Split` | src/Chromely.Core/ChromelyRuntime.cs:55-55 | `Split('.')` gives one more piece than there are separators, and no piece holds a separator. |
| `DotNetStrings.JoinSplit` | src/Chromely.Core/ChromelyRuntime.cs:74-74 | Joining the pieces of a split gives the text back. |
| `DotNetStrings.SplitJoin` | src/Chromely.Core/ChromelyRuntime.cs:55-55 | Splitting a join of separator-free pieces gives the pieces back. |
| `DotNetStrings.ParseInt32` | src/Chromely.Core/ChromelyRuntime.cs:55-55 | `TryParse` succeeds only with a value inside Int32. Which texts it accepts, the value it gives and its rejection of overflow are stated by `ParseInt32Text` and `ParsedTextShape`. |
| `DotNetStrings.ParseInt32Text` | src/Chromely.Core/ChromelyRuntime.cs:55-55 | Every text of white space, at most one sign, one or more digits and white space parses to its signed value when that fits in Int32, and fails on overflow. |
| `DotNetStrings.ParsedTextShape` | src/Chromely.Core/ChromelyRuntime.cs:55-55 | Conversely, every text that parses has that shape, and the result is its signed value. |
| `DotNetStrings.TrimStartWhite` | src/Chromely.Core/ChromelyRuntime.cs:55-55 | Leading white space is trimmed up to the first other character. |
| `DotNetStrings.TrimEndWhite` | src/Chromely.Core/ChromelyRuntime.cs:55-55 | Trailing white space is trimmed back to the last other character. |
| `DotNetStrings.ParseIntToString` | src/Chromely.Core/ChromelyRuntime.cs:74-74 | Parsing the decimal text of any Int32 gives that number back. |
| `DotNetStrings.IntToString` | src/Chromely.Core/ChromelyRuntime.cs:154-154 | An enum value with no name prints as a non-empty decimal, with a leading '-' exactly for negative values. |
| `DotNetPath.Combine` | src/Chromely.Core/ChromelyRuntime.cs:154-154 | A relative, non-empty file name is appended after `DirectoryPrefix` of the directory, which is empty for an empty directory and otherwise ends in exactly one separator it adds or keeps. A rooted name replaces the directory, and an empty name leaves the directory. |
| `DotNetPath.DirectoryPrefix` | src/Chromely.Core/ChromelyRuntime.cs:66-66 | An empty directory gives nothing. A directory that already ends in a separator comes back unchanged. Any other directory gets one separator appended: '\\' under Windows rules and '/' under Unix rules. |

## Left out

- Reflection (`Assembly.LoadFrom`, `GetTypes`, `GetProperty`, `GetValue`) is not modelled. It is an oracle from assembly path, type name and property name to a `VersionLookup`; what a real assembly contains is not modelled.
- `Environment.OSVersion`, `RuntimeInformation.ProcessArchitecture` and `typeof(ChromelyRuntime).Assembly.Location` are not read. They are the fields of `HostEnvironment`, and `Path.GetDirectoryName` of the location is given directly as an optional directory.
- `Debug.WriteLine` in the catch block is dropped, because it only traces.
- `DotNetStrings.ToLower`: lowercases ASCII letters only. Every other character is kept, although `String.ToLower` is culture-sensitive and also maps non-ASCII letters. Under the Turkish and Azerbaijani cultures (tr-TR, az) `String.ToLower` maps the ASCII capital 'I' to dotless 'ı' (U+0131), so there the source's test rejects "DARWIN" while the model's `IsRunningOnMac("DARWIN")` holds. Non-ASCII characters that some cultures lowercase to ASCII letters (such as the Kelvin sign U+212A to 'k') are not mapped either.
- `DotNetStrings.ParseInt32`: models `NumberStyles.Integer` with the invariant culture: white space, one sign, decimal digits, and the Int32 range. Culture-specific signs and trailing NUL characters are not modelled.
- `DotNetPath.Combine`: follows the .NET Core rules. The path style is a parameter rather than the running OS. Checks for invalid path characters are not modelled, because .NET Core's `Path.Combine` does not make them.
- `DotNetStrings.Replace`: requires a non-empty old value, where .NET throws instead. Every call in the source passes a non-empty constant.
- `ChromelyRuntime.ChromelyCefWrapper`: the numeric values of the declared enum members are not part of this model. `Undeclared(raw)` stands for a value that names no member, and the model does not check that `raw` differs from the declared ones.
- The path-rewriting lemmas (`GtkNameCollapses`, `WinapiNameCollapses`, `LibuiNameStays`, `CefSharpPathRewrite` and the three `…LooksUp…` lemmas) require that the directory does not itself contain the replaced text. Because `Replace` rewrites every occurrence, a directory such as `/opt/x.CefGlue.Gtk.y/` would be rewritten too. That case is modelled by `Replace` but not summarised by a lemma.
- src/Chromely.CefGlue.Winapi/BrowserWindow/CefGlueWindow.cs (the `Close`/`Exit` forwarding and the message loop) is not part of this model. It only delegates to `HostBase`, `Window` and `NativeWindow`, which are not part of this model either, so it has no logic of its own.

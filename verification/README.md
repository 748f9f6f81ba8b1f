# XIVLauncher utility core, modelled in Dafny

This project models the pure decision and encoding logic of the launcher's
static `Util` class (XIVLauncher/Util.cs). It covers four parts:

- **Install-path validation and discovery** (`InstallPaths`, install_paths.dfy).
  `IsValidFFXIVPath` (`InstallPaths.IsValidFFXIVPath`) rejects a null or empty path. Otherwise it asks for the
  "game" and "boot" subdirectories. `TryGamePaths` scans the fixed `PathsToTry`
  list in order and returns the first candidate that exists and is valid, or null.
  The filesystem is a `set<string>` of existing directories. `Path.Combine`
  follows the .NET Framework rules for two arguments. C# `null` is `Option.None`
  (optional.dfy).
- **Language to locale code** (`Language`, language.dfy). `GetLangCode` is total.
  Japanese, English, German and French map to "ja", "en-gb", "de" and "fr". Every
  other enum value falls back to "en-gb". `Other(n)` stands for the unnamed
  values a C# enum variable can hold.
- **Frontier referer** (`Referer`, referer.dfy). `GenerateFrontierReferer` becomes
  a pure function of the language and the time string, already formatted as
  `yyyy-MM-dd-HH`. A parser serves as its inverse.
- **ARGB colour codec** (`Argb`, argb.dfy). A C# `int` is its 32-bit
  two's-complement pattern (`bv32`), and a `byte` is a `bv8`. `Sar` models C#'s
  arithmetic `>>`. `SignedValue` reads a pattern back as a C# `int`.

## Model

| member | source | states |
|---|---|---|
| `InstallPaths.Combine` | XIVLauncher/Util.cs:45 | for a non-empty parent and a non-empty relative child: the result starts with the parent and ends with the child; exactly one `\` is put between them when the parent does not already end in a separator. An empty child gives the parent. An empty parent or a rooted child gives the child |
| `InstallPaths.CombineKeepsChildrenApart` | XIVLauncher/Util.cs:45 | the "game" and "boot" paths under any parent differ, so the two existence checks are independent |
| `InstallPaths.IsValidFFXIVPath` | XIVLauncher/Util.cs:40-46 | the path is valid iff it is non-null, non-empty, and both its combined "game" and "boot" children are existing directories; a valid path is never null or empty |
| `InstallPaths.NullOrEmptyIsInvalid` | XIVLauncher/Util.cs:42-43 | a null or empty path is invalid in every filesystem, so no directory is consulted |
| `InstallPaths.ValidityDependsOnlyOnChildren` | XIVLauncher/Util.cs:45 | for a non-empty path, validity holds iff both combined children are existing directories; two filesystems that agree on those two directories give the same verdict |
| `InstallPaths.RemovingChildInvalidates` | XIVLauncher/Util.cs:45 | removing "game" or "boot" from a valid install makes it invalid; removing any other path string keeps it valid |
| `InstallPaths.TrailingSeparatorIrrelevant` | XIVLauncher/Util.cs:45 | for a non-empty `p` that does not already end in a separator, `p` and `p + "\"` are judged alike, because the combined children are the same paths |
| `InstallPaths.PathsToTryDistinct` | XIVLauncher/Util.cs:48-54 | of the constant `PathsToTry`, which holds the four literals in source order: the four candidate paths are pairwise distinct, non-empty and do not end in a separator |
| `InstallPaths.FirstQualifyingIndex` | XIVLauncher/Util.cs:56-65 | reference search. A found index is in range. Its candidate exists as a directory and is valid, and every earlier candidate fails that test. The result is none iff no candidate passes |
| `InstallPaths.TryGamePaths` | XIVLauncher/Util.cs:56-65 | the loop returns what the reference search selects. It returns null iff no entry of `PathsToTry` passes. Otherwise it returns an entry of `PathsToTry` that exists and is valid, and every entry listed before it fails |
| `InstallPaths.EarlierCandidateWins` | XIVLauncher/Util.cs:58-61 | when candidates at positions i < j both qualify, the search stops at position i or earlier |
| `InstallPaths.SearchDependsOnlyOnProbes` | XIVLauncher/Util.cs:58-61 | the search result depends only on the candidates and their "game" and "boot" children. Filesystems that agree on those directories give the same result |
| `InstallPaths.SearchMonotone` | XIVLauncher/Util.cs:58-64 | creating directories never loses a found install. The search still succeeds, at the same or an earlier position |
| `Language.GetLangCode` | XIVLauncher/Util.cs:87-105 | the code is one of "ja", "en-gb", "de", "fr". It is "en-gb" exactly for English and unnamed values. Decoding it gives the language back, with unnamed values read as English |
| `Language.LangCodeRoundTrip` | XIVLauncher/Util.cs:87-105 | exactly the four locale codes decode to a language, and each code is the one that language encodes to |
| `Language.LangCodeInjectiveUpToFallback` | XIVLauncher/Util.cs:87-105 | two languages share a code iff they are equal once unnamed values are read as English |
| `Language.LocaleCodesHaveNoAmpersand` | XIVLauncher/Util.cs:87-105 | every code is non-empty and free of '&', so the referer query cannot be broken by it |
| `Referer.FrontierReferer` | XIVLauncher/Util.cs:110-115 | parsing the referer recovers `GetLangCode(language)` and the time string unchanged. Its length is the frontier page URL plus both query fields |
| `Referer.ParseRoundTrip` | XIVLauncher/Util.cs:115 | the page, `?rc_lang=`, the code, `&time=` and any time string are split back into the code and that time string |
| `Referer.RefererDeterminedByCodeAndHour` | XIVLauncher/Util.cs:110-115 | two referers are equal iff their locale codes and time strings are equal. The same language within one UTC hour gives the same URL, and a new hour gives a new URL |
| `Referer.OnlyTimeFieldVaries` | XIVLauncher/Util.cs:113-115 | for one language, referers for different hours share everything before the time field, and the time field is the time string |
| `Argb.Sar` | XIVLauncher/Util.cs:120 | the arithmetic shift matches the logical shift on every bit the shift keeps |
| `Argb.SarSignExtends` | XIVLauncher/Util.cs:120 | every vacated bit copies the sign bit: a non-negative value shifts in zeros (the result is the logical shift), a negative one shifts in ones, and the sign bit is preserved |
| `Argb.ColorFromArgb` | XIVLauncher/Util.cs:118-121 | alpha is bits 24-31, red 16-23, green 8-15 and blue 0-7 of the input. Sign extension from the signed shift never reaches a channel |
| `Argb.ColorToArgb` | XIVLauncher/Util.cs:123 | each channel can be read back from its own byte of the packed value: alpha from bits 24-31, red 16-23, green 8-15, blue 0-7 |
| `Argb.ArgbRoundTrip` | XIVLauncher/Util.cs:118-123 | `ColorToArgb(ColorFromArgb(x)) == x` for every 32-bit `x` |
| `Argb.ColorRoundTrip` | XIVLauncher/Util.cs:118-123 | `ColorFromArgb(ColorToArgb(c)) == c` for every colour built from four bytes |
| `Argb.PackedSignFollowsAlpha` | XIVLauncher/Util.cs:123 | `color.A << 24` wraps, so the packed `int` is negative iff alpha is at least 0x80 |
| `Argb.NegativeArgbHasHighAlpha` | XIVLauncher/Util.cs:118-121 | a negative `int` unpacks to an alpha of at least 0x80, and a non-negative one to an alpha below it |

## Left out

- `ShowError` (Util.cs:18-22): a WPF message box with no logic of its own.
- `GetGitHash` and `GetAssemblyVersion` (Util.cs:24-38): they read assembly metadata by reflection.
- `IsWindowsDarkModeEnabled` (Util.cs:67-79): a wrapper over the registry API. Its behaviour on a missing key or a value of the wrong type is library semantics.
- `IsAdministrator` (Util.cs:81-85): an operating-system privilege query.
- `GetUnixMillis` (Util.cs:108): it uses floating-point milliseconds and casts a `double` to `int`, which unchecked C# leaves unspecified when out of range.
- `SolidColorBrushFromArgb` (Util.cs:125): it only wraps `ColorFromArgb` in a WPF brush.
- The clock, `DateTime.ToString("yyyy-MM-dd-HH")` and `Settings.GetLanguage()` are not modelled. The referer takes the language and the formatted time as parameters.
- `Directory.Exists` is membership in the set of existing directories. An access error reads as "does not exist", as in .NET.
- `InstallPaths.IsValidFFXIVPath`: paths are compared as exact strings. Windows' case-insensitive lookup and `Path.GetFullPath` normalisation are not modelled: `/` against `\`, relative paths, and trailing separators on the probed paths. So `"c:/ffxiv"` is not recognised from the directories `C:\FFXIV\game` and `C:\FFXIV\boot`. `InstallPaths.RemovingChildInvalidates` speaks of path strings, not of the directories they name.
- `InstallPaths.Combine`: .NET Framework's `Path.Combine` throws `ArgumentException` on illegal path characters, and `IsValidFFXIVPath` does not catch it. `IsValidFFXIVPath` lets that exception propagate; the model always returns a verdict.
- `Language.GetLangCode`: the `ClientLanguage` enum declaration is not part of this model. `Other(n)` stands for any value outside the four named members, whatever its number.
- `Argb.ColorFromArgb` and `Argb.ColorToArgb` take and return the 32-bit pattern. The signed reading of an `int` is the separate `SignedValue`, and `SignedValueInjective` shows distinct patterns are distinct `int` values, so a `bv32` stands for exactly one C# `int`. No function goes from a signed integer to its pattern.
- `Argb.Color`: the WPF `Color` is modelled by its four sRGB bytes. Colours built from scRGB floats and colour contexts are not represented.

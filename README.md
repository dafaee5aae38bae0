# VersionUp.V2 version bump, modelled in Dafny

VersionUp.V2 is a Visual Studio extension. Its context menu has four commands, Major, Minor,
Build and Revision. Each one raises one segment of the selected project's `AssemblyVersion`. The
command handler `ContextMenu.UpVersion` reads the property into a `System.Version`. It computes
four new segments in a `switch`, writes them back as `major.minor.build.revision` and shows the
message `"<project> <old> -> <new>"`.

This project models that computation as pure functions. The handler computes it into four local
`int`s with no loop and no shared state, so no class is needed.

- `text.dfy` (module `Text`): how a C# `int` is interpolated into a string (`Decimal`). Also a
  digit reader, splitting on a separator character, and the last word of a text. The lemmas
  about the command use these.
- `context_menu.dfy` (module `ContextMenu`):
  - `VersionType`, the menu's enum.
  - `Ver`, the four segments.
  - `IsParsed`, what a parsed `System.Version` can hold. Major and minor are non-negative. Build
    and revision are non-negative or -1 ("absent"). A revision is present only when a build is.
    Every segment fits in an `int`.
  - `Bump`, the `switch`. `Format`, the interpolated string. `Summary`, the message.
  - `ParseFour`, a strict reader of four dot-separated digit fields. It is the reference against
    which the output text is shown to read back.

Modelling choices:

- The segments are C# `int`s. The model assumes C#'s default overflow setting (no
  `CheckForOverflowUnderflow` in the project file, which is not part of this model), so the
  `+ 1` is unchecked. At int.MaxValue the increment wraps to int.MinValue (`Inc32`).
  `BumpIncreases` therefore requires the target segment to be below int.MaxValue.
  `BumpWrapsAtInt32Max` shows that for every target the version gets smaller at the bound, and
  `BumpIncreasesIffBelowBound` shows the bound is exactly the condition for an increase. With
  checked arithmetic the increment at lines 148, 152, 157 and 163 of
  VersionUp.V2/ContextMenu.cs would throw instead. The catch at lines 191-199 would then show
  the message, and nothing would be written.
- The parsed version is an input record constrained by `IsParsed`. The `System.Version` parser is
  not part of this model.
- A negative segment is rendered with a leading '-'. This is what interpolation gives under the
  invariant culture.
- The output always has four fields, whatever the input's precision, because the source always
  interpolates four `int`s. A precision-preserving policy (keep "1.2" as two fields) is not what
  the code does, and this model follows the code.
- An absent build or revision is -1. Bumping it gives 0. A Revision bump copies an absent build
  through as -1 (see Findings).

## Model

| member | source | states |
|---|---|---|
| `ContextMenu.PositionOneToOne` | VersionUp.V2/ContextMenu.cs:28-34 | The four enum values Major, Minor, Build and Revision name four distinct segments, and every segment is named by one of them |
| `ContextMenu.Bump` | VersionUp.V2/ContextMenu.cs:143-165 | For every target, each segment of higher order than the target equals the input's, the target is the input's plus one (32-bit), and each lower-order segment is 0 |
| `ContextMenu.BumpUnique` | VersionUp.V2/ContextMenu.cs:143-165 | The cascade rule determines the result: any version satisfying it is `Bump(v, t)` |
| `ContextMenu.Inc32` | VersionUp.V2/ContextMenu.cs:148 | The unchecked `int` increment stays in range, equals `x + 1` reduced modulo 2^32 into the `int` range, so it is `x + 1` below int.MaxValue and wraps to int.MinValue at it |
| `ContextMenu.BumpMajor` | VersionUp.V2/ContextMenu.cs:143-149 | Bumping Major gives (major + 1, 0, 0, 0) |
| `ContextMenu.BumpMinor` | VersionUp.V2/ContextMenu.cs:150-153 | Bumping Minor keeps major, gives minor + 1, and zeroes build and revision |
| `ContextMenu.BumpBuild` | VersionUp.V2/ContextMenu.cs:154-158 | Bumping Build keeps major and minor, gives build + 1, and zeroes revision |
| `ContextMenu.BumpRevision` | VersionUp.V2/ContextMenu.cs:159-164 | The default branch keeps major, minor and build and gives revision + 1 |
| `ContextMenu.BumpAbsentBuild` | VersionUp.V2/ContextMenu.cs:154-164 | With build absent (-1), a Build bump gives build 0, and a Revision bump carries the -1 into the result beside revision 0 |
| `ContextMenu.BumpIncreases` | VersionUp.V2/ContextMenu.cs:145-165 | Below the int.MaxValue bound, the new version is strictly greater than the old one in major, minor, build, revision order |
| `ContextMenu.BumpWrapsAtInt32Max` | VersionUp.V2/ContextMenu.cs:145-165 | For every target, a bump whose target segment is int.MaxValue wraps that segment to int.MinValue, and the new version is smaller than the old |
| `ContextMenu.BumpIncreasesIffBelowBound` | VersionUp.V2/ContextMenu.cs:145-165 | The new version is strictly greater than the old exactly when the target segment is below int.MaxValue |
| `ContextMenu.BumpIsNextAtLevel` | VersionUp.V2/ContextMenu.cs:143-165 | No non-negative version above the input that changes the target or a higher-order segment lies below the bumped version |
| `Text.Decimal` | VersionUp.V2/ContextMenu.cs:168 | The interpolated `int` is non-empty, holds no '.' and no space, and is all digits exactly when the value is non-negative |
| `ContextMenu.Format` | VersionUp.V2/ContextMenu.cs:168 | The interpolated version text holds no space, so it is a single word of the message; its four-field layout is stated by `FormatFields` |
| `ContextMenu.FormatFields` | VersionUp.V2/ContextMenu.cs:168 | Splitting the new version text on '.' gives exactly four fields: the decimal major, minor, build and revision, in that order |
| `ContextMenu.FormatRoundTrip` | VersionUp.V2/ContextMenu.cs:168 | For non-negative segments, reading the text back recovers the same four values |
| `ContextMenu.FormatNegativeRefused` | VersionUp.V2/ContextMenu.cs:168 | A text with a negative segment is not a four-field digit version |
| `ContextMenu.BumpOutputRoundTrips` | VersionUp.V2/ContextMenu.cs:143-168 | Except for a Revision bump without a build, and below the bound, the result is a well-formed version whose text reads back to it |
| `ContextMenu.RevisionBumpWithoutBuild` | VersionUp.V2/ContextMenu.cs:159-168 | A Revision bump of a version without a build gives a segment combination no `System.Version` can hold, and its text does not read back |
| `ContextMenu.RevisionBumpWithoutBuildExample` | VersionUp.V2/ContextMenu.cs:159-168 | Bumping Revision of "1.2" produces the text "1.2.-1.0" |
| `ContextMenu.BumpCorrected` | VersionUp.V2/ContextMenu.cs:159-164 | With an absent build read as 0, a Revision bump without a build gives (major, minor, 0, 0). Every bump below the bound gives a well-formed, non-negative, strictly greater version. It agrees with `Bump` everywhere except a Revision bump without a build |
| `ContextMenu.BumpCorrectedRoundTrips` | VersionUp.V2/ContextMenu.cs:159-168 | Below the int.MaxValue bound, the corrected result's text reads back to it |
| `ContextMenu.Summary` | VersionUp.V2/ContextMenu.cs:181 | The message is the project name, a space, the old version text, " -> " and the new version text, in that order and nothing else |
| `ContextMenu.SummaryEndsWithNewVersion` | VersionUp.V2/ContextMenu.cs:181 | The last word of the message is the formatted new version |

## Left out

- Menu command registration, command IDs, the package singleton and async main-thread switching (VersionUp.V2/ContextMenu.cs:23-26, 51-113). These are host IDE integration.
- `GetSelectedProject` (VersionUp.V2/ContextMenu.cs:208-247) and `GetActiveFilePath` (115-121). These are COM interop and IDE service lookups.
- Reading and writing the project properties, including the fallback from `AssemblyFileVersion` to `FileVersion` and `Version` (VersionUp.V2/ContextMenu.cs:141, 169-179). These belong to a foreign object model whose failures are exceptions from code that is not shown.
- The message boxes and the error path that shows an exception's message (VersionUp.V2/ContextMenu.cs:183-199). These are UI only.
- The parsing and `ToString()` of `System.Version` (VersionUp.V2/ContextMenu.cs:141, 181). The parsed value is an input constrained by `IsParsed`. The old version text in the message is a string parameter. `ParseFour` is a strict reference reader, not .NET's parser.
- `ThreadHelper.ThrowIfNotOnUIThread` checks. These are threading only.
- Culture-dependent number formatting. `Decimal` renders the negative sign as '-'.

## Findings

| source | as written | input that shows it | evidently intended | confidence | as-written member | corrected member |
|---|---|---|---|---|---|---|
| VersionUp.V2/ContextMenu.cs:159-168 | The Revision case copies `assemblyVersion.Build` unchanged. For a two-part version the build is -1, so the result is build -1 with revision 0 | AssemblyVersion "1.2", Revision command: new text "1.2.-1.0" | An absent build counts as 0, giving "1.2.0.0", which is a valid version above "1.2". This is the smallest change: it keeps the code's own `-1 + 1 = 0` rule for the absent revision, as in the Build branch at line 157. Reading an absent segment as 0 before incrementing would give "1.2.0.1" instead | not executed; derived from the code and the documented `System.Version` behaviour | `ContextMenu.RevisionBumpWithoutBuild` | `ContextMenu.BumpCorrected` |

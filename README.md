# MeloD configuration layer, modelled in Dafny

This project models the configuration layer of the 3MeloD project, which plays music on
3D-printer motors. The layer loads a TOML file into a nested table (the store). It then
answers fixed-path questions about it: printer angles per step, rotation distance per
revolution, printer dimensions, where the song file is, the song's name, directory,
tempo and octave adjustments.

The part with logic of its own is the data-path resolver `_get_data_value`:

- it splits a path such as `printer/x_dim` on a separator (default `/`);
- it calls `.get` once per segment, starting at the store;
- it returns whatever is found after the last segment, untouched;
- it stops with `NotExistsInConfigException`, carrying the whole path, as soon as a
  lookup gives `None`.

Files:

- `values.dfy` (module `ConfigValues`): the stored values (`Value`: tables, strings,
  integers, opaque floats and date-times, booleans, arrays, a stored null), the error
  taxonomy `ConfigError`, `Result`, and `Get` (Python's `dict.get`).
- `path_split.dfy` (module `PathSplit`): Python's `str.split` for a non-empty separator,
  with its join, no-separator, concatenation and empty-piece properties.
- `resolver.dfy` (module `Resolver`): the resolver as functions. `Walk` goes one segment
  at a time. `Resolve` splits the path and then walks. `IsTrail`/`LeadsTo` are an
  independent description of "every segment found". The lemmas tie the two together.
- `config.dfy` (module `Config`): the configuration objects as classes.
  - `MeloDConfig` holds the `store` field. `CouldLoadFile` replaces it after a successful
    parse. `GetDataValue` is the resolver loop, proved equal to `Resolve`.
  - `ProjectConfig` and `SongConfig` hold the accessors.
  - Lemmas state what the accessors return on a loaded file.

## Where the code and its documentation disagree

The model follows the code in each of these cases.

- **Empty path.** The docstring (config.py:57-58) says an empty path raises
  `NotValidConfigDataPathException`. The guard at config.py:64 compares the path string
  with an empty list, which no string equals, so that exception is never raised for a
  string path. The path `""` splits into the single segment `""` and is looked up as the
  key `""` (`Resolver.ResolveEmptyPath`). The error variant `NotValidConfigDataPath` is
  kept, and `Resolver.Resolve` promises never to produce it.
- **Descending into a non-table.** The docstring (config.py:59-60) says that reaching a
  "dead-end" raises `NotExistsInConfigException`. In the code, `.get` on a string, number or
  list is a Python `AttributeError` (`NoGetAttribute` here, `Resolver.ResolveDeadEnd`).
- **Unloaded store.** `__init__` (config.py:14-16) assigns a local variable, not the
  field, so before a successful load the store is the class default `None`. Resolving
  then fails with the same `AttributeError`, not with a not-exists error.
- **Empty separator.** `str.split("")` raises `ValueError`. This is the
  `EmptySeparator` variant. No caller in the source passes a separator.

## Model

| member | source | states |
|---|---|---|
| `ConfigValues.Message` | config.py:153-161 | the not-exists message embeds the whole data path at a fixed place |
| `PathSplit.IndexOfIsLeftmost` | config.py:63 | the split cuts at the leftmost occurrence of the separator; -1 exactly when there is none |
| `PathSplit.Split` | config.py:63 | splitting always yields at least one segment |
| `PathSplit.SplitPiecesAreFree` | config.py:63 | no segment contains the separator |
| `PathSplit.JoinSplit` | config.py:63 | joining the segments with the separator gives the path back |
| `PathSplit.SplitWithoutSeparator` | config.py:63 | a path without the separator is one segment (so `""` is the segment `""`) |
| `PathSplit.SplitConcat` | config.py:63 | the segments of `p + sep + q` are those of `p` followed by those of `q` |
| `PathSplit.SplitJoin` | config.py:63 | splitting undoes joining segments that hold no separator |
| `PathSplit.SplitTrailingSeparator` | config.py:63 | for a one-character separator, a trailing separator adds an empty last segment |
| `PathSplit.SplitDoubledSeparator` | config.py:63 | for a one-character separator, two separators in a row leave an empty segment between them |
| `Resolver.Walk` | config.py:67-76 | a walk fails only with the not-exists error naming the whole path or the attribute error; a successful walk over segments never returns null |
| `Resolver.Resolve` | config.py:48-76 | the invalid-path error is never produced; a not-exists error carries the original path; an unloaded store fails with the attribute error; the empty-separator error happens exactly for `sep == ""`; a found value is never null |
| `Resolver.WalkSucceedsIffLeadsTo` | config.py:68-76 | a walk returns `v` exactly when every segment is found with a non-null value and `v` is the value at the last one |
| `Resolver.WalkAppend` | config.py:68-74 | walking `a + b` is walking `a` and then `b` from where it ended; a failure in `a` ends the walk |
| `Resolver.WalkSuccessIgnoresDataPath` | config.py:73-74 | the path carried by errors does not affect whether or where a walk succeeds |
| `Resolver.ResolveFound` | config.py:68-76 | resolution returns `v` exactly when the store is loaded and every segment leads, through non-null values, to `v` (falsy values included) |
| `Resolver.WalkMissingKey` | config.py:70-74 | a table reached without the next key, or with null under it, ends the walk with the not-exists error |
| `Resolver.WalkDeadEnd` | config.py:70 | a non-table reached with segments left ends the walk with the attribute error |
| `Resolver.ResolveMissingKey` | config.py:70-74 | a missing key at any step fails with not-exists carrying the whole original path, not the prefix reached |
| `Resolver.ResolveDeadEnd` | config.py:70 | a scalar or array reached with segments left fails with the attribute error, distinct from not-exists |
| `Resolver.WalkOne` | config.py:69-74 | one segment: attribute error on a non-table, not-exists on a missing or null key, else the value |
| `Resolver.ResolveEmptyPath` | config.py:63-65 | the empty path is not rejected; it looks up the key `""` |
| `Resolver.ResolveCompose` | config.py:68-74 | if `p` resolves to `v`, resolving `p + sep + q` equals walking `q`'s segments from `v` |
| `Resolver.ResolveTopLevelKey` | config.py:131-148 | a separator-free key, as each song key is, resolves (through the lookup of config.py:63-76) directly in the root table: not-exists naming the key if absent, else the stored value |
| `Resolver.ResolveNestedKey` | config.py:92-94 | `table/key` fails with not-exists naming the whole path if `table` or `key` is missing, with the attribute error if `table` is not a table, else returns the stored value |
| `Config.MeloDConfig.constructor` | config.py:12-16 | a new object's store is unloaded (`None`) |
| `Config.MeloDConfig.CouldLoadFile` | config.py:18-46 | true exactly when a non-empty path was given and the parse succeeded; the store becomes the parsed table on success and is unchanged on any failure |
| `Config.MeloDConfig.GetDataValue` | config.py:48-76 | the resolver loop returns exactly `Resolve` of the current store |
| `Config.MeloDConfig.GetThree` | config.py:92-94 | three resolutions evaluated left to right: the three values in order, or the first error |
| `Config.All2` | config.py:131-132 | a pair succeeds exactly when both parts do, in order; otherwise the first error |
| `Config.All3` | config.py:110-112 | a triple succeeds exactly when all parts do, in order; otherwise the first error |
| `Config.ProjectConfig.constructor` | config.py:84-85 | a new project config has an unloaded store |
| `Config.ProjectConfig.GetPrinterAnglesPerStep` | config.py:87-94 | the resolutions of `printer/x_ang`, `printer/y_ang`, `printer/z_ang` in that order, or the first error |
| `Config.ProjectConfig.GetPrinterRotDistancePerRev` | config.py:96-103 | the same for `printer/x_rpr`, `printer/y_rpr`, `printer/z_rpr` |
| `Config.ProjectConfig.GetPrinterDimensions` | config.py:105-112 | the same for `printer/x_dim`, `printer/y_dim`, `printer/z_dim` |
| `Config.ProjectConfig.GetSongConfigPath` | config.py:114-119 | the resolution of `song/config_filepath` |
| `Config.SongConfig.constructor` | config.py:123-124 | a new song config has an unloaded store |
| `Config.SongConfig.GetSongProperties` | config.py:126-132 | the resolutions of `song_name` and `song_directory` in that order, or the first error |
| `Config.SongConfig.GetSongTempo` | config.py:134-139 | the resolution of `tempo`, returned as stored |
| `Config.SongConfig.GetSongOctavesAdjustment` | config.py:141-148 | the resolutions of `x_octave_adj`, `y_octave_adj`, `z_octave_adj` in that order, or the first error |
| `Config.PrinterAccessorsOfLoadedFile` | config.py:87-112 | with a loaded `printer` table holding the keys, each printer accessor returns the stored x, y, z values in order |
| `Config.PrinterAccessorsReportFirstPath` | config.py:92-94 | without a `printer` table, the error reported is not-exists for the x path, the first evaluated |
| `Config.SongKeyOfLoadedFile` | config.py:131-148 | each song key is returned exactly as stored (zero, false, empty included), or fails with not-exists naming the key |
| `Config.SongPropertiesOfLoadedFile` | config.py:126-132 | name and directory in that order; when both are missing, the error names `song_name` |
| `Config.ReloadReadsAlike` | config.py:18-46 | loading the same file twice, with a failed load between, gives identical dimension results |

## Left out

- File I/O and parsing: `os.path.abspath`, `open` and `tomllib.load` are replaced by the
  `parsed` argument of `CouldLoadFile`. It is `None` when the file is missing, malformed,
  or any other error occurs, and otherwise the parsed top-level table.
- The diagnostics printed by `could_load_file`, and the three exception kinds it
  distinguishes only in those messages. The caller sees a boolean either way.
- Float and date-time semantics: these values are kept as opaque tokens, since the
  layer does no arithmetic on them.
- The class hierarchy: `ProjectConfig` and `SongConfig` hold a `MeloDConfig` instead of
  inheriting from it. No method is overridden.
- Non-string paths: the path is modelled as a string, as annotated. A `None` path would
  fail in `.split` before the guard.
- Non-string separators: `sep` has no annotation, and `sep=None` makes `str.split` cut at
  runs of whitespace. `GetDataValue` takes a string separator, so this is not modelled;
  no caller passes a separator.
- The tuple type annotations (`Tuple[float, float, float]` and so on) are not enforced by
  the source, and the model does not narrow values either.
- PathSplit.SplitConcat: stated for one-character separators only. A longer separator
  can overlap the boundary: `"a" + "aa" + q` is first cut at index 0.
- PathSplit.SplitJoin: stated for one-character separators only, for the same reason.
- PathSplit.SplitTrailingSeparator: stated for one-character separators only. For longer
  ones it is false: `"aaa"` split on `"aa"` is `["", "a"]`, not `["a", ""]`.
- PathSplit.SplitDoubledSeparator: stated for one-character separators only, for the same
  reason.
- Resolver.ResolveCompose: stated for one-character separators only, because it rests on
  SplitConcat. Every path in the source uses the default `/`.
- ConfigValues.Message: the attribute-error and empty-separator texts stand in for
  Python's built-in messages, which are not part of config.py.

# kodi_repo_bootstrap, modelled in Dafny

`kodi_repo_bootstrap` builds a Kodi add-on repository from a directory of new
add-ons. This project models the parts of it that make decisions, and proves
what those parts promise.

- **`SemanticVersion`** (`versions.dfy`, module `Versions`). The version-string
  regular expression is modelled as a greedy scanner. The model also covers the
  rendering (`__str__`), `==`, `hash`, the hand-written `>`, and the `>=`, `<`
  and `<=` built from them. The proofs include:
  - the round trip `str(parse(s)) == s` on canonical strings;
  - trichotomy and transitivity of `>` on versions that render differently;
  - the quirks of `>` itself: `v > v` whenever a suffix is present, and the
    inverted suffix tie-break.
- **`AddonManager`** (`addons.dfy`, module `Addons`).
  - The keep-latest fold of `get_addons_not_in_repo` is an imperative loop
    over a dictionary. It is proved equal to a fold function. The proofs show
    that the fold keeps, for each id, a candidate that no other candidate's
    version is above, whatever the scan order.
  - The memo is a field that the methods update.
  - `__glob_addon` skips candidates whose load raises `ValueError` or `BadZipFile`.
  - `get_all_addons` puts the fresh winners before the records already in the
    repository.
- **`RepoManager.create_repo_addons_xml`** (`manifest.dfy`, module `Manifest`),
  up to the point where the file is saved. The model has:
  - the two-level, insertion-ordered map of id, then rendered version, then
    `addon.xml` lines;
  - the nested emission loops and the final `strip()`.

  These are proved equal to the specification `AddonsXml`. About `AddonsXml`
  the proofs show the envelope, the block for each (id, version) pair, the
  emission order, the last-writer-wins text and the dropping of XML
  declarations.
- **`Config`** (`config.dfy`, module `Configuration`). The model has:
  - `__post_init__` and `__validate` as methods of a class whose fields they
    update;
  - `as_dict`, and `Config(**d)` reading it back;
  - the truthy-override merge of the command line into the saved
    configuration file.

Python's `dict` is `Dicts.Dict`: a sequence of keys in insertion order plus a
map (`dicts.dfy`). Strings are `seq<char>`. `str.rstrip`, `str.lstrip`,
`str.strip`, `str.find(...) >= 0`, `str.startswith` and `str.endswith` are in `text.dfy`. There, the white-space
test is the set of characters for which `str.isspace()` holds.

Functions that are not Dafny code become parameters:
- the file system, as seen by the add-on manager, is a `FileSystem`. It gives
  whether a path is a directory, and the glob results of a directory for one of
  the two pattern sets (`Addons.Patterns`): `Fresh` for the new add-ons
  (`*.zip`, `*/addon.xml`, `*/*.zip`) and `InRepo` for the repository
  (`*/*.zip`). So one directory scanned both ways can yield different results.
  Each result is already loaded as an `Addon`, or `None` when loading raised
  `ValueError` or `BadZipFile`;
- `urlparse`, `Path.resolve(strict=True)` and `Path.is_dir` are the fields of
  `Configuration.Env`;
- Python's string hash is the `strHash` argument of `Versions.Hash`.

## Model

| member | source | states |
|---|---|---|
| Versions.Parse | kodi_repo_bootstrap/repo/version.py:12-33 | The parsed version is well formed: a patch only with a minor, and never an empty suffix. A string the expression does not match gives major 0 with nothing else. A suffix is always a tail of the input, without its final newline. |
| Versions.ScanNumberSpec | kodi_repo_bootstrap/repo/version.py:7-9 | A number group of the expression matches exactly when the text starts with a digit, and what it consumes is the canonical rendering of the value it yields. Unless it took a lone `0`, it stops only at a non-digit, so the match is greedy. |
| Versions.DecimalValueOfNatToString | kodi_repo_bootstrap/repo/version.py:22 | `int(str(n)) == n`. |
| Versions.NatToStringOfDecimalValue | kodi_repo_bootstrap/repo/version.py:22 | A digit string without a leading zero is the rendering of its `int` value. |
| Versions.ParseNonNumeric | kodi_repo_bootstrap/repo/version.py:13-19 | A string that does not start with a digit parses as major 0 with no minor, patch or suffix, and renders as `"0"`. |
| Versions.PatchWithoutMinorDropped | kodi_repo_bootstrap/repo/version.py:24-29 | `M..p<rest>` has no minor, so its patch digits are dropped. Only the rest is kept, as the suffix. |
| Versions.OneDotDotTwo | kodi_repo_bootstrap/repo/version.py:24-29 | `"1..2"` parses as `1` and renders as `"1"`. |
| Versions.NoNewlineInStr | kodi_repo_bootstrap/repo/version.py:102-114 | A rendering holds no newline and starts with a digit. |
| Versions.ParseStr | kodi_repo_bootstrap/repo/version.py:102-114 | Rendering and then parsing gives back every well-formed version whose suffix starts with neither a digit nor a dot. So `str(SemanticVersion(s)) == s` on such canonical strings. |
| Versions.StrParseCanonical | kodi_repo_bootstrap/repo/version.py:12-33 | Parsing a rendering renders the same text again. |
| Versions.GtIsAboveOrSelfWithSuffix | kodi_repo_bootstrap/repo/version.py:54-91 | `a > b` holds exactly when `a` is above `b` in the reference order, or when `a` and `b` are the same version and it has a suffix. The reference order compares fields in the order major, minor, patch, suffix; a present field beats an absent one; and of two suffixes the alphabetically smaller wins. |
| Versions.GtSelf | kodi_repo_bootstrap/repo/version.py:82-91 | `v > v` holds exactly when `v` has a suffix. |
| Versions.GtTrichotomy | kodi_repo_bootstrap/repo/version.py:54-91 | For two different versions, exactly one of `a > b` and `b > a` holds. |
| Versions.GtTransitive | kodi_repo_bootstrap/repo/version.py:54-91 | `>` is transitive. |
| Versions.RenderedDifferentlyTrichotomy | kodi_repo_bootstrap/repo/version.py:51-91 | For versions that render differently, exactly one of `a > b` and `b > a` holds. |
| Versions.DerivedOperators | kodi_repo_bootstrap/repo/version.py:93-100 | On versions that render differently, `a < b` and `a <= b` hold exactly when `b > a`, and `a >= b` holds exactly when `a > b`. |
| Versions.LeIsNotGtOrEq | kodi_repo_bootstrap/repo/version.py:96-100 | `a <= b` holds exactly when the renderings are equal or `a > b` fails. |
| Versions.HashRespectsEq | kodi_repo_bootstrap/repo/version.py:116-117 | Versions that are `==` have equal hashes. |
| Versions.PresentPatchIsGreater | kodi_repo_bootstrap/repo/version.py:70-80 | `"1.2.0" > "1.2"` and not the other way round, and `"2.0.0" > "1.9.9"`. |
| Versions.SuffixTieBreakInverted | kodi_repo_bootstrap/repo/version.py:88-89 | `"1.0a" > "1.0b"` and not the other way round, and `"1.0a" > "1.0a"`. |
| Versions.EqualButGreater | kodi_repo_bootstrap/repo/version.py:51-52 | `"1.3"` and `"1..2.3"` are `==`, because both render as `"1.3"`, yet the first is `>` the second. |
| Versions.Str | kodi_repo_bootstrap/repo/version.py:102-114 | The definition follows `__str__`: the major, then `.minor` and, only inside a present minor, `.patch`, then the suffix as it is. |
| Versions.Eq | kodi_repo_bootstrap/repo/version.py:51-52 | The definition follows `__eq__`: equal renderings. |
| Versions.Hash | kodi_repo_bootstrap/repo/version.py:116-117 | The definition follows `__hash__`: the string hash of the rendering. |
| Versions.Gt | kodi_repo_bootstrap/repo/version.py:54-91 | The definition follows `__gt__` branch for branch: major, minor, patch, then suffix. A present field beats an absent one, and two suffixes compare by `sorted(...)[0] == self.other`, that is code-point `<=`. |
| Versions.Ge | kodi_repo_bootstrap/repo/version.py:93-94 | The definition follows `__ge__`: `==` or `>`. |
| Versions.Lt | kodi_repo_bootstrap/repo/version.py:96-97 | The definition follows `__lt__`: not `>=`. |
| Versions.Le | kodi_repo_bootstrap/repo/version.py:99-100 | The definition follows `__le__`: `==` or `<`. |
| Text.RStrip | kodi_repo_bootstrap/repo/manager.py:65 | The result is a prefix of the input that does not end in white space, and everything removed is white space. |
| Text.LStrip | kodi_repo_bootstrap/repo/manager.py:71 | The result is a suffix of the input that does not start with white space, and everything removed is white space. |
| Text.RStripAppend | kodi_repo_bootstrap/repo/manager.py:68 | Right-stripping `a + b` is `a` followed by the right-stripped `b`, or the right-stripped `a` when `b` is only white space. |
| Text.Strip | kodi_repo_bootstrap/repo/manager.py:71 | The result is a slice of the input that neither starts nor ends with white space, and everything removed on either side is white space. |
| Text.Contains | kodi_repo_bootstrap/repo/manager.py:61 | The definition follows `line.find(p) >= 0`: `p` fits in the text and is its prefix or occurs in its tail. |
| Text.ContainsIffOccurs | kodi_repo_bootstrap/repo/manager.py:61 | `line.find(p) >= 0` holds exactly when `p` occurs at some index of the line. |
| Text.StartsWith | kodi_repo_bootstrap/repo/config.py:42 | The definition follows `startswith`: the text begins with `p`. |
| Text.EndsWith | kodi_repo_bootstrap/repo/config.py:56 | The definition follows `endswith`: the text ends with `p`. |
| Dicts.Dict.Put | kodi_repo_bootstrap/repo/manager.py:46 | `d[k] = v` keeps the dictionary well formed and maps `k` to `v`. A new key goes last; an existing key keeps its place. |
| Dicts.Dict.Values | kodi_repo_bootstrap/addon/manager.py:61 | `d.values()` lists the values in key order. |
| Addons.Loaded | kodi_repo_bootstrap/addon/manager.py:23-31 | The addons that loaded, with no others; a load that raised `ValueError` or `BadZipFile` skips that path. |
| Addons.LoadedSnoc | kodi_repo_bootstrap/addon/manager.py:23-31 | One more glob result appends its add-on at the end when it loaded, and nothing otherwise, so the loaded add-ons keep the glob order. |
| Addons.Glob | kodi_repo_bootstrap/addon/manager.py:18-31 | A root that is not a directory gives the `ValueError` for that root, and only then. Otherwise the result is exactly the addons that loaded; the skipped paths leave nothing. |
| Addons.Offer | kodi_repo_bootstrap/addon/manager.py:49-59 | An unknown id is appended. A known id is replaced in place only when the candidate's version is `>` the stored one; otherwise the map is unchanged. |
| Addons.Resolve | kodi_repo_bootstrap/addon/manager.py:33-61 | The scanned map lists each id once, in first-seen order, and maps it to one of that id's own candidates. |
| Addons.ResolveIsLatest | kodi_repo_bootstrap/addon/manager.py:49-59 | The record kept for an id is one of its candidates, and no other candidate's version is above it. |
| Addons.ResolveIsGreatest | kodi_repo_bootstrap/addon/manager.py:51-53 | The kept version is `>=` every candidate's version for its id. |
| Addons.ScanOrderIrrelevant | kodi_repo_bootstrap/addon/manager.py:37-59 | Two scans of the same candidates in any order keep the same ids, with the same version for each. |
| Addons.TieBreak | kodi_repo_bootstrap/addon/manager.py:51 | On a candidate with the stored version, the later record wins exactly when the version has a suffix. |
| Addons.EqualVersionsKeepFirst | kodi_repo_bootstrap/addon/manager.py:51-56 | A candidate whose version is `==` the stored one, where neither has a suffix, leaves the map unchanged. |
| Addons.KeepLatest | kodi_repo_bootstrap/addon/manager.py:37-59 | The scan loop over the glob results computes the fold `Resolve` of the addons that loaded. |
| Addons.AddonManager.constructor | kodi_repo_bootstrap/addon/manager.py:11-16 | Both directories are recorded and the memo starts empty. |
| Addons.AddonManager.GetAddonsNotInRepo | kodi_repo_bootstrap/addon/manager.py:33-61 | With an empty memo, the call scans the add-ons directory with the fresh patterns: a missing directory raises, and otherwise the memo becomes the fold of the scan. With a non-empty memo, nothing is rescanned. Either way the call returns the memo's values. |
| Addons.AddonManager.GetAddonsInRepo | kodi_repo_bootstrap/addon/manager.py:63-69 | The repository scan raises exactly when the repository directory is missing. Otherwise, with the pattern `*/*.zip`, it yields exactly the addons that loaded there. |
| Addons.AddonManager.GetAllAddons | kodi_repo_bootstrap/addon/manager.py:71-72 | The fresh winners come first, then the in-repo records. The fresh scan's error comes first. With an empty memo, the call scans the add-ons directory: a missing directory raises and leaves the memo empty, and otherwise the memo becomes the fold of the scan. A set memo is kept. |
| Manifest.Record | kodi_repo_bootstrap/repo/manager.py:45-48 | One step of the merge loop: the id keeps its place or is appended, and the (id, rendered version) entry is set to the addon's lines. |
| Manifest.MergeOrder | kodi_repo_bootstrap/repo/manager.py:44-48 | Ids appear in the order they were first met, and the versions of an id likewise. Overwriting an entry does not move it. |
| Manifest.MergeLastWins | kodi_repo_bootstrap/repo/manager.py:44-48 | An (id, version) entry exists exactly when some addon has that pair, and holds the lines of the last such addon. |
| Manifest.InRepoTextWins | kodi_repo_bootstrap/repo/manager.py:44-48 | The in-repo records come after the fresh ones, so for a pair both have, the in-repo lines are kept. |
| Manifest.OneEntryPerPair | kodi_repo_bootstrap/repo/manager.py:50-54 | The emitted entries are distinct and are exactly the (id, rendered version) pairs of the addons. |
| Manifest.BodyIsBlocksOfEntries | kodi_repo_bootstrap/repo/manager.py:52-68 | The body is one block per entry, in entry order. |
| Manifest.CleanLinesHaveNoDeclaration | kodi_repo_bootstrap/repo/manager.py:59-65 | No cleaned block contains `<?xml`, even across line boundaries. |
| Manifest.CleanLinesEnd | kodi_repo_bootstrap/repo/manager.py:65 | A cleaned block is empty or ends with a newline. |
| Manifest.ManifestShape | kodi_repo_bootstrap/repo/manager.py:68-71 | The manifest is the header, the right-stripped body and the footer. A body that is all white space leaves the header followed by the closing tag. |
| Manifest.Envelope | kodi_repo_bootstrap/repo/manager.py:37-71 | The manifest starts with the XML declaration and `<addons>\n`, and ends with `\n</addons>\n`. |
| Manifest.EmptyManifest | kodi_repo_bootstrap/repo/manager.py:71 | With no addons, the manifest is the header followed directly by `</addons>\n`. |
| Manifest.MergeAddonXmlFiles | kodi_repo_bootstrap/repo/manager.py:43-48 | The merge loop computes `Merge` of the addons. |
| Manifest.CleanAddonXml | kodi_repo_bootstrap/repo/manager.py:56-65 | The line loop computes `CleanLines`. |
| Manifest.EmitVersionBlocks | kodi_repo_bootstrap/repo/manager.py:54-68 | The loop over one id's versions computes their blocks in order. |
| Manifest.EmitAddons | kodi_repo_bootstrap/repo/manager.py:52-68 | The loop over the ids appends every id's blocks to the header. |
| Manifest.BuildAddonsXml | kodi_repo_bootstrap/repo/manager.py:37-71 | The whole builder computes `AddonsXml`. |
| Manifest.RepoManager.constructor | kodi_repo_bootstrap/repo/manager.py:15-19 | The manager owns a new add-on manager over the two configured directories, with an empty memo. |
| Manifest.RepoManager.Open | kodi_repo_bootstrap/repo/manager.py:15-31 | Construction runs the fresh scan at once. It raises exactly when the add-ons directory is missing. Otherwise the new manager's memo is the fold of that scan. |
| Manifest.RepoManager.CreateRepoAddonsXml | kodi_repo_bootstrap/repo/manager.py:33-71 | The result is the manifest of `get_all_addons`, or the scan error that call raises. The memo is kept when it was already set. With an empty memo, a missing add-ons directory leaves it empty, and otherwise the memo becomes the fold of the scan. |
| Configuration.TrimSlash | kodi_repo_bootstrap/repo/config.py:55-57 | A URL ending in `/` loses exactly that character; any other URL is unchanged. |
| Configuration.TrimsOneSlashOnly | kodi_repo_bootstrap/repo/config.py:55-57 | Of two trailing slashes only one is removed. Trimming twice removes no more than the one slash that was added. |
| Configuration.MissingFieldsSpec | kodi_repo_bootstrap/repo/config.py:38-70 | Among the first `n` checks, a field is reported missing exactly when it is `None` or, for a string, empty. |
| Configuration.MissingInFieldOrder | kodi_repo_bootstrap/repo/config.py:38-70 | The missing fields are listed in the fixed order from `--name` to `--repo-dir`, each at most once. |
| Configuration.MissingIffAbsent | kodi_repo_bootstrap/repo/config.py:38-70 | A flag is in the missing list exactly when its field is absent or falsy. |
| Configuration.ValidIffAllChecks | kodi_repo_bootstrap/repo/config.py:33-80 | Validation passes exactly when every field is present, the id starts with `repository.`, the trimmed URL has a scheme and a host, and the addons directory is a directory. |
| Configuration.EmptyIdOnlyMissing | kodi_repo_bootstrap/repo/config.py:40-43 | An absent or empty id is reported as missing and never as wrong. |
| Configuration.ResolvePath | kodi_repo_bootstrap/repo/config.py:26-29 | An absent path stays absent. A given path becomes its resolved form, or the error for that path when it does not exist. |
| Configuration.RepoDirMustExist | kodi_repo_bootstrap/repo/config.py:25-31 | Creation succeeds only if `repo_dir` is given and exists. A missing addons directory fails before anything else. |
| Configuration.ToDict | kodi_repo_bootstrap/repo/config.py:82-88 | `as_dict` has every field name once, in declaration order, each mapped to the field's value. |
| Configuration.Kwargs | kodi_repo_bootstrap/repo/config.py:105 | `Config(**d)` succeeds exactly when the keys of `d` are the field names, and then takes each field from its key. |
| Configuration.SavedConfigReloads | kodi_repo_bootstrap/repo/config.py:82-88 | Reading `as_dict` back with `Config(**d)` gives the same settings. |
| Configuration.MergeArgs | kodi_repo_bootstrap/repo/config.py:102 | The merge keeps the dictionary well formed, and the file's keys keep their places at the front. |
| Configuration.MergeArgsAt | kodi_repo_bootstrap/repo/config.py:102 | After the first `n` command-line entries, a key is present exactly when the file or one of those truthy entries has it. Its value comes from the command line exactly when such an entry overrides it. |
| Configuration.CliOverridesOnlyWhenTruthy | kodi_repo_bootstrap/repo/config.py:102 | A command-line value replaces the file's value exactly when it is truthy. An absent or empty value leaves the file's value. |
| Configuration.Config.constructor | kodi_repo_bootstrap/repo/config.py:13-23 | The dataclass fields are the given settings. |
| Configuration.Config.AsDict | kodi_repo_bootstrap/repo/config.py:82-88 | The saved dictionary lists the field names in order, and reading it back gives this object's settings. |
| Configuration.Config.PostInit | kodi_repo_bootstrap/repo/config.py:25-31 | The call resolves the addons directory, then the repository directory, then validates. It fails exactly as `Settle` does, and on success the fields are the settled settings. |
| Configuration.Config.Validate | kodi_repo_bootstrap/repo/config.py:33-80 | The result is the missing flags when any are missing, else the wrong-argument messages when there are any, else success. The URL field loses one trailing slash. |
| Configuration.CheckGiven | kodi_repo_bootstrap/repo/config.py:44-51 | A presence-only check appends its flag exactly when the field is absent or falsy. |
| Configuration.CheckId | kodi_repo_bootstrap/repo/config.py:40-43 | An absent or empty id is missing. A given id without the `repository.` prefix is wrong. |
| Configuration.Config.CheckUrl | kodi_repo_bootstrap/repo/config.py:52-63 | An absent URL is missing. A given one loses one trailing slash and is then wrong when it has no scheme or no host. |
| Configuration.Config.CheckAddonsDir | kodi_repo_bootstrap/repo/config.py:64-68 | An absent addons directory is missing. A given one that is not a directory is wrong. |
| Configuration.LoadConfig | kodi_repo_bootstrap/repo/config.py:99-105 | Merge, then `Config(**d)`, then `__post_init__`. The call fails exactly as `Load` does, and on success it gives a fresh object holding the loaded settings. |

## Left out

- Digits are the ASCII digits `0`-`9`. Python's `\d` and `int()` also accept other Unicode decimal digits; the model does not.
- The version expression is applied with `re.match` and a `$` anchor. The model reproduces the consequences:
  - a newline anywhere except at the very end makes the match fail;
  - a single final newline is not part of the suffix.

  Other regular-expression machinery is not modelled.
- `Versions.Hash`: Python's `hash()` of a string is a parameter. Only its dependence on the rendering is modelled.
- Loading an `Addon` means parsing `addon.xml` and reading zip files. It is not modelled. An add-on is a record `(id, version, xml lines, path)`, and a load that raised `ValueError` or `BadZipFile` is `None` in the glob results.
- Addons.Loaded, Addons.Glob: a load that raises anything else (an `ExpatError` from `minidom.parse` on malformed XML, addon/addon.py:30) is not caught at addon/manager.py:29 and aborts the whole scan. The model assumes no such error occurs.
- Versions.Parse: `int()` raises `ValueError` on a digit string longer than the interpreter's limit (`sys.get_int_max_str_digits()`, 4300 by default), so a version whose digit group is longer makes `SemanticVersion(s)` raise. The model assumes no digit group is that long. Inside the scan such an error would be skipped like any other `ValueError` at addon/manager.py:29.
- Globbing (`Directory.multi_glob`) is not modelled. The glob results of each directory and pattern set are given, in order, by the `FileSystem` parameter; only which of the two pattern sets a scan uses is modelled, not how a pattern matches.
- The `print` messages of the scan and of validation are not modelled.
- Python generators are lazy. A missing repository directory raises only when `get_all_addons` is iterated past the fresh add-ons. The model raises the same error eagerly. Nothing is saved before the error either way, so `create_repo_addons_xml` ends the same.
- Manifest.RepoManager.Open: `RepoManager(config)` is given the two directories, `config.addons_dir` and `config.repo_dir`, rather than the whole `Config`. The constructor also creates one output directory per fresh add-on and builds the repository add-on. That is file-system work and is not modelled. The `RepoAddon` class is not part of this model.
- Saving `addons.xml` and writing its MD5 file are not modelled (repo/manager.py:73-79). Neither are `copy_addon_assets_to_repo` and `create_addon_zip_files` (repo/manager.py:81-112).
- Reading and writing the JSON configuration file (config.py:110-132) is not modelled, and neither is argparse. A setting is `None` or a string. JSON numbers, booleans and other non-string values are not modelled.
- `str()` of a resolved `Path` is taken to be the path string itself. `Path("")` and other normalisation happen inside the `resolve` parameter.
- The standalone scripts `generate_repo.py` and `_tools/generate_repo.py` are not part of this model.
- These behaviours of the code are modelled as written, where a description of the program might suggest otherwise:
  - `get_all_addons` yields the fresh add-ons before those already in the repository. The merge keeps the last lines for an (id, version) pair, so the text already in the repository wins (`Manifest.InRepoTextWins`).
  - `__post_init__` resolves `repo_dir` with `strict=True` before validating, so a repository directory that does not exist fails. This contradicts the comment at config.py:71, which says the directory is created later (`Configuration.RepoDirMustExist`).
  - The empty manifest is the header followed directly by `</addons>\n`. The final `strip()` removes the header's own newline, so there is no blank line between the tags (`Manifest.EmptyManifest`).

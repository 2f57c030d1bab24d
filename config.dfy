/**
  The repository configuration: the nine settings, the merge of the saved
  configuration file with the command line, the checks run when a `Config` is
  created, and the dictionary it is saved as.

  A setting is `None` (absent or JSON `null`) or a string; the two directory
  settings are paths, which are always truthy once given. Resolving a path, the
  URL parser and the directory test belong to the file system and the standard
  library and are parameters here (`Env`).
 */
module Configuration {
  import opened Wrappers
  import opened Text
  import opened Dicts

  // ---------------------------------------------------------------------------
  // The settings
  // ---------------------------------------------------------------------------

  /** The dataclass fields, in declaration order. */
  datatype Field =
    | RepoName | RepoAddonId | RepoAddonVersion | RepoAddonAuthor | RepoAddonSummary
    | RepoAddonDescription | RepoUrl | AddonsDir | RepoDir
  {
    /** The field name: the key in the saved file and the command-line destination. */
    function Name(): string
    {
      match this
      case RepoName => "repo_name"
      case RepoAddonId => "repo_addon_id"
      case RepoAddonVersion => "repo_addon_version"
      case RepoAddonAuthor => "repo_addon_author"
      case RepoAddonSummary => "repo_addon_summary"
      case RepoAddonDescription => "repo_addon_description"
      case RepoUrl => "repo_url"
      case AddonsDir => "addons_dir"
      case RepoDir => "repo_dir"
    }

    /** The long command-line flag, as the error messages name the field. */
    function Flag(): string
    {
      match this
      case RepoName => "--name"
      case RepoAddonId => "--id"
      case RepoAddonVersion => "--version"
      case RepoAddonAuthor => "--author"
      case RepoAddonSummary => "--summary"
      case RepoAddonDescription => "--description"
      case RepoUrl => "--url"
      case AddonsDir => "--addons-dir"
      case RepoDir => "--repo-dir"
    }

    /** The position in declaration order. */
    function Index(): (i: nat)
      ensures i < |AllFields| && AllFields[i] == this
    {
      match this
      case RepoName => 0
      case RepoAddonId => 1
      case RepoAddonVersion => 2
      case RepoAddonAuthor => 3
      case RepoAddonSummary => 4
      case RepoAddonDescription => 5
      case RepoUrl => 6
      case AddonsDir => 7
      case RepoDir => 8
    }

    /** A `Path` field rather than a `str` one. */
    predicate IsPath()
    {
      this == AddonsDir || this == RepoDir
    }
  }

  const AllFields: seq<Field> := [RepoName, RepoAddonId, RepoAddonVersion, RepoAddonAuthor,
    RepoAddonSummary, RepoAddonDescription, RepoUrl, AddonsDir, RepoDir]

  /** The values of the fields: each absent (`None`) or a string (a path's text for the two directories). */
  datatype Settings = Settings(
    repoName: Option<string>,
    repoAddonId: Option<string>,
    repoAddonVersion: Option<string>,
    repoAddonAuthor: Option<string>,
    repoAddonSummary: Option<string>,
    repoAddonDescription: Option<string>,
    repoUrl: Option<string>,
    addonsDir: Option<string>,
    repoDir: Option<string>)
  {
    /** `getattr(self, field.name)`. */
    function Get(x: Field): Option<string>
    {
      match x
      case RepoName => repoName
      case RepoAddonId => repoAddonId
      case RepoAddonVersion => repoAddonVersion
      case RepoAddonAuthor => repoAddonAuthor
      case RepoAddonSummary => repoAddonSummary
      case RepoAddonDescription => repoAddonDescription
      case RepoUrl => repoUrl
      case AddonsDir => addonsDir
      case RepoDir => repoDir
    }
  }

  /** `not value` is false: a non-empty string, or any path. */
  predicate Present(x: Field, v: Option<string>)
  {
    v.Some? && (x.IsPath() || v.value != "")
  }

  const IdPrefix: string := "repository."
  const IdMessage: string := RepoAddonId.Flag() + ": The addon ID must start with 'repository.'"
  const UrlMessage: string := RepoUrl.Flag() + ": a valid URL must be provided"
  const DirMessage: string := AddonsDir.Flag() + ": a valid directory must be provided"

  /** The standard library and the file system as seen by the configuration. */
  datatype Env = Env(
    /** `urlparse(u)` has a non-empty scheme and a non-empty network location. */
    urlHasSchemeAndNetloc: string -> bool,
    /** `Path(p).resolve(strict=True)`: the absolute path, or none when it does not exist. */
    resolve: string -> Option<string>,
    /** `Path(p).is_dir()`. */
    isDir: string -> bool)

  /** What creating a configuration can raise. */
  datatype ConfigError =
    | MissingArgs(flags: seq<string>)   // `ValueError`, after listing the missing flags
    | WrongArgs(messages: seq<string>)  // `ValueError`, after listing the wrong arguments
    | FileNotFound(path: string)        // from `resolve(strict=True)`
    | TypeError                         // `Config(**d)` with a missing or unexpected key


  // ---------------------------------------------------------------------------
  // What validation reports
  // ---------------------------------------------------------------------------

  /** `repo_url` without one trailing slash. */
  function TrimSlash(u: string): (r: string)
    ensures EndsWith(u, "/") ==> r + "/" == u
    ensures !EndsWith(u, "/") ==> r == u
  {
    if EndsWith(u, "/") then u[..|u| - 1] else u
  }

  /** The missing fields among the first `n`, in field order. */
  function MissingFields(s: Settings, n: nat): seq<Field>
    requires n <= |AllFields|
  {
    if n == 0 then []
    else
      var x := AllFields[n - 1];
      MissingFields(s, n - 1) + if Present(x, s.Get(x)) then [] else [x]
  }

  function FlagsOf(fs: seq<Field>): (flags: seq<string>)
    ensures |flags| == |fs| && forall i :: 0 <= i < |fs| ==> flags[i] == fs[i].Flag()
  {
    seq(|fs|, i requires 0 <= i < |fs| => fs[i].Flag())
  }

  /** The flags `__validate` lists as missing. */
  function Missing(s: Settings): seq<string>
  {
    FlagsOf(MissingFields(s, |AllFields|))
  }

  /** The id check: a given id without the `repository.` prefix. */
  function IdProblems(s: Settings): seq<string>
  {
    if Present(RepoAddonId, s.repoAddonId) && !StartsWith(s.repoAddonId.value, IdPrefix) then [IdMessage] else []
  }

  /** The URL check, made after one trailing slash is dropped. */
  function UrlProblems(s: Settings, env: Env): seq<string>
  {
    if Present(RepoUrl, s.repoUrl) && !env.urlHasSchemeAndNetloc(TrimSlash(s.repoUrl.value)) then [UrlMessage] else []
  }

  /** The addons directory check. */
  function DirProblems(s: Settings, env: Env): seq<string>
  {
    if Present(AddonsDir, s.addonsDir) && !env.isDir(s.addonsDir.value) then [DirMessage] else []
  }

  /** The wrong-argument messages, in the order the checks run: id, URL, addons directory. */
  function Wrong(s: Settings, env: Env): seq<string>
  {
    IdProblems(s) + UrlProblems(s, env) + DirProblems(s, env)
  }

  /** `__validate`: missing arguments first; wrong arguments only when nothing is missing. */
  function ValidationOutcome(s: Settings, env: Env): Outcome<ConfigError>
  {
    if Missing(s) != [] then Fail(MissingArgs(Missing(s)))
    else if Wrong(s, env) != [] then Fail(WrongArgs(Wrong(s, env)))
    else Pass
  }

  /** The settings after validation: a given URL loses one trailing slash. */
  function Trimmed(s: Settings): Settings
  {
    if Present(RepoUrl, s.repoUrl) then s.(repoUrl := Some(TrimSlash(s.repoUrl.value))) else s
  }

  /** `Path(p).resolve(strict=True)` applied to a path setting that is given. */
  function ResolvePath(p: Option<string>, env: Env): (r: Result<Option<string>, ConfigError>)
    ensures r.Ok? <==> p.None? || env.resolve(p.value).Some?
    ensures r.Ok? ==> r.value == if p.None? then None else env.resolve(p.value)
    ensures r.Err? ==> r.error == FileNotFound(p.value)
  {
    match p
    case None => Ok(None)
    case Some(path) =>
      match env.resolve(path)
      case None => Err(FileNotFound(path))
      case Some(absolute) => Ok(Some(absolute))
  }

  /** `__post_init__`: resolve the addons directory, then the repository directory, then validate. */
  function Settle(s: Settings, env: Env): Result<Settings, ConfigError>
  {
    match ResolvePath(s.addonsDir, env)
    case Err(e) => Err(e)
    case Ok(addonsDir) =>
      match ResolvePath(s.repoDir, env)
      case Err(e) => Err(e)
      case Ok(repoDir) =>
        var t := s.(addonsDir := addonsDir, repoDir := repoDir);
        match ValidationOutcome(t, env)
        case Fail(e) => Err(e)
        case Pass => Ok(Trimmed(t))
  }

  // ---------------------------------------------------------------------------
  // Properties of validation
  // ---------------------------------------------------------------------------

  lemma {:induction false} MissingFieldsSpec(s: Settings, n: nat, x: Field)
    requires n <= |AllFields|
    ensures x in MissingFields(s, n) <==> x.Index() < n && !Present(x, s.Get(x))
  {
    if n != 0 {
      MissingFieldsSpec(s, n - 1, x);
    }
  }

  /** Appending a missing field appends its flag. */
  lemma FlagsOfSnoc(fs: seq<Field>, x: Field)
    ensures FlagsOf(fs + [x]) == FlagsOf(fs) + [x.Flag()]
  {
  }

  /** Fields listed in strictly increasing declaration order, so each at most once. */
  ghost predicate InFieldOrder(fs: seq<Field>)
  {
    forall i, j | 0 <= i < j < |fs| :: fs[i].Index() < fs[j].Index()
  }

  /** The missing fields keep the fixed field order, each listed once. */
  lemma {:induction false} MissingInFieldOrder(s: Settings, n: nat)
    requires n <= |AllFields|
    ensures forall y | y in MissingFields(s, n) :: y.Index() < n
    ensures InFieldOrder(MissingFields(s, n))
  {
    if n != 0 {
      MissingInFieldOrder(s, n - 1);
      var p := MissingFields(s, n - 1);
      var x := AllFields[n - 1];
      assert x.Index() == n - 1;
      var fs := MissingFields(s, n);
      if Present(x, s.Get(x)) {
        assert fs == p;
      } else {
        assert fs == p + [x];
        forall i, j | 0 <= i < j < |fs| ensures fs[i].Index() < fs[j].Index() {
          assert fs[i] == p[i];
          if j < |p| {
            assert fs[j] == p[j];
          } else {
            assert p[i] in p;
          }
        }
      }
    }
  }

  /** A field's flag is listed as missing exactly when the field is absent or falsy. */
  lemma MissingIffAbsent(s: Settings, x: Field)
    ensures x.Flag() in Missing(s) <==> !Present(x, s.Get(x))
  {
    var fs := MissingFields(s, |AllFields|);
    MissingFieldsSpec(s, |AllFields|, x);
    if x in fs {
      var i :| 0 <= i < |fs| && fs[i] == x;
      assert Missing(s)[i] == x.Flag();
    }
    if x.Flag() in Missing(s) {
      var i :| 0 <= i < |fs| && Missing(s)[i] == x.Flag();
      FlagsDistinct(fs[i], x);
    }
  }

  lemma FlagsDistinct(x: Field, y: Field)
    ensures x.Flag() == y.Flag() ==> x == y
  {
    if x.Flag() == y.Flag() {
      assert |x.Flag()| == |y.Flag()|;
      if |x.Flag()| > 6 {
        assert x.Flag()[3] == y.Flag()[3];
      }
    }
  }

  /**
    Validation passes exactly when every field is given, the id has the `repository.`
    prefix, the URL has a scheme and a network location once a trailing slash is
    dropped, and the addons directory is a directory; the repository directory is
    only checked for presence.
   */
  lemma ValidIffAllChecks(s: Settings, env: Env)
    ensures ValidationOutcome(s, env) == Pass
            <==> (forall x: Field :: Present(x, s.Get(x)))
                 && StartsWith(s.Get(RepoAddonId).value, IdPrefix)
                 && env.urlHasSchemeAndNetloc(TrimSlash(s.Get(RepoUrl).value))
                 && env.isDir(s.Get(AddonsDir).value)
  {
    var fs := MissingFields(s, |AllFields|);
    if fs == [] {
      forall x: Field ensures Present(x, s.Get(x)) {
        MissingFieldsSpec(s, |AllFields|, x);
      }
    } else {
      MissingFieldsSpec(s, |AllFields|, fs[0]);
    }
  }

  /** An empty or absent id is reported only as missing, never also as wrong. */
  lemma EmptyIdOnlyMissing(s: Settings, env: Env)
    requires s.repoAddonId == None || s.repoAddonId == Some("")
    ensures RepoAddonId.Flag() in Missing(s)
    ensures IdMessage !in Wrong(s, env)
  {
    MissingIffAbsent(s, RepoAddonId);
    assert |IdMessage| != |UrlMessage|;
    assert IdMessage[2] != DirMessage[2];
  }

  /** Exactly one trailing slash is removed: a second one stays. */
  lemma TrimsOneSlashOnly(u: string)
    ensures TrimSlash(u + "//") == u + "/"
    ensures !EndsWith(u, "/") ==> TrimSlash(TrimSlash(u + "/")) == u
  {
    assert (u + "//")[..|u| + 1] == u + "/";
    assert (u + "/")[..|u|] == u;
  }

  /**
    `resolve(strict=True)` runs before validation: a repository directory that does not
    exist yet is a `FileNotFoundError` rather than a directory created later, and an
    addons directory that does not exist is reported before any missing argument.
   */
  lemma RepoDirMustExist(s: Settings, env: Env)
    ensures Settle(s, env).Ok? ==> s.repoDir.Some? && env.resolve(s.repoDir.value).Some?
    ensures s.addonsDir.Some? && env.resolve(s.addonsDir.value).None?
            ==> Settle(s, env) == Err(FileNotFound(s.addonsDir.value))
  {
    if Settle(s, env).Ok? {
      var t := s.(addonsDir := ResolvePath(s.addonsDir, env).value, repoDir := ResolvePath(s.repoDir, env).value);
      MissingIffAbsent(t, RepoDir);
    }
  }

  // ---------------------------------------------------------------------------
  // The dictionary forms
  // ---------------------------------------------------------------------------

  /** The field names in declaration order. */
  function Names(): (ns: seq<string>)
    ensures |ns| == |AllFields| && forall i :: 0 <= i < |AllFields| ==> ns[i] == AllFields[i].Name()
  {
    seq(|AllFields|, i requires 0 <= i < |AllFields| => AllFields[i].Name())
  }

  function NameSet(): set<string>
  {
    set x: Field | x in AllFields :: x.Name()
  }

  lemma NamesDistinct(x: Field, y: Field)
    ensures x.Name() == y.Name() ==> x == y
  {
    if x.Name() == y.Name() {
      assert |x.Name()| == |y.Name()|;
      if |x.Name()| == 8 {
        assert x.Name()[5] == y.Name()[5];
      } else if |x.Name()| == 18 {
        assert x.Name()[11] == y.Name()[11];
      }
    }
  }

  lemma AllFieldsIndexed()
    ensures forall i | 0 <= i < |AllFields| :: AllFields[i].Index() == i
  {
  }

  /** No field name occurs twice. */
  lemma NamesListedOnce()
    ensures Distinct(Names())
  {
    NamesInjective();
    AllFieldsIndexed();
  }

  lemma NamesInjective()
    ensures forall x: Field, y: Field :: x.Name() == y.Name() ==> x == y
    ensures forall x: Field :: x.Name() in NameSet()
  {
    forall x: Field, y: Field ensures x.Name() == y.Name() ==> x == y {
      NamesDistinct(x, y);
    }
    forall x: Field ensures x.Name() in NameSet() {
      assert AllFields[x.Index()] == x;
    }
  }

  /** `as_dict`: every field under its name, `str()` of its value or `None`. */
  function ToDict(s: Settings): (d: Dict<string, Option<string>>)
    ensures d.Valid() && d.keys == Names() && d.items.Keys == NameSet()
    ensures forall x: Field :: d.items[x.Name()] == s.Get(x)
  {
    NamesInjective();
    NamesListedOnce();
    Dict(Names(), map x: Field | x in AllFields :: x.Name() := s.Get(x))
  }

  /** `Config(**d)`: a `TypeError` unless the keys are exactly the field names. */
  function Kwargs(d: Dict<string, Option<string>>): (r: Result<Settings, ConfigError>)
    ensures r.Ok? <==> d.items.Keys == NameSet()
    ensures r.Ok? ==> forall x: Field :: r.value.Get(x) == d.items[x.Name()]
  {
    NamesInjective();
    if d.items.Keys == NameSet() then
      Ok(FromLookup((x: Field) => if x.Name() in d.items then d.items[x.Name()] else None))
    else Err(TypeError)
  }

  /** The settings whose every field is given by `g`. */
  function FromLookup(g: Field -> Option<string>): (s: Settings)
    ensures forall x: Field :: s.Get(x) == g(x)
  {
    Settings(g(RepoName), g(RepoAddonId), g(RepoAddonVersion), g(RepoAddonAuthor), g(RepoAddonSummary),
             g(RepoAddonDescription), g(RepoUrl), g(AddonsDir), g(RepoDir))
  }

  /** Settings agreeing on every field are equal. */
  lemma SettingsAgree(s: Settings, t: Settings)
    requires forall x: Field :: s.Get(x) == t.Get(x)
    ensures s == t
  {
    assert s.Get(RepoName) == t.Get(RepoName) && s.Get(RepoAddonId) == t.Get(RepoAddonId);
    assert s.Get(RepoAddonVersion) == t.Get(RepoAddonVersion) && s.Get(RepoAddonAuthor) == t.Get(RepoAddonAuthor);
    assert s.Get(RepoAddonSummary) == t.Get(RepoAddonSummary);
    assert s.Get(RepoAddonDescription) == t.Get(RepoAddonDescription) && s.Get(RepoUrl) == t.Get(RepoUrl);
    assert s.Get(AddonsDir) == t.Get(AddonsDir) && s.Get(RepoDir) == t.Get(RepoDir);
  }

  /** A saved configuration reads back as the same settings. */
  lemma SavedConfigReloads(s: Settings)
    ensures Kwargs(ToDict(s)) == Ok(s)
  {
    var t := Kwargs(ToDict(s)).value;
    SettingsAgree(t, s);
  }

  /** A command-line value is truthy: any path, or a non-empty string. */
  predicate CliTruthy(key: string, v: Option<string>)
  {
    v.Some? && (key == AddonsDir.Name() || key == RepoDir.Name() || v.value != "")
  }

  /**
    `config_dict_from_file.update({k: v for k, v in config_dict.items() if v})`:
    the truthy command-line values of the first `n` destinations, put in their order.
   */
  function MergeArgs(file: Dict<string, Option<string>>, cli: Dict<string, Option<string>>, n: nat)
    : (r: Dict<string, Option<string>>)
    requires file.Valid() && cli.Valid() && n <= |cli.keys|
    ensures r.Valid()
    ensures |file.keys| <= |r.keys| && r.keys[..|file.keys|] == file.keys
  {
    if n == 0 then file
    else
      var m := MergeArgs(file, cli, n - 1);
      var k := cli.keys[n - 1];
      if CliTruthy(k, cli.items[k]) then m.Put(k, cli.items[k]) else m
  }

  /** Whether the first `n` command-line destinations give `k` a truthy value. */
  predicate OverriddenAmong(cli: Dict<string, Option<string>>, n: nat, k: string)
    requires cli.Valid() && n <= |cli.keys|
  {
    k in cli.keys[..n] && CliTruthy(k, cli.items[k])
  }

  lemma {:induction false} MergeArgsAt(file: Dict<string, Option<string>>, cli: Dict<string, Option<string>>,
                                       n: nat, k: string)
    requires file.Valid() && cli.Valid() && n <= |cli.keys|
    ensures k in MergeArgs(file, cli, n).items <==> k in file.items || OverriddenAmong(cli, n, k)
    ensures k in MergeArgs(file, cli, n).items
            ==> MergeArgs(file, cli, n).items[k] == if OverriddenAmong(cli, n, k) then cli.items[k] else file.items[k]
  {
    if n != 0 {
      MergeArgsAt(file, cli, n - 1, k);
      assert cli.keys[..n] == cli.keys[..n - 1] + [cli.keys[n - 1]];
    }
  }

  /**
    The merged settings are the file's, overridden by every truthy command-line value;
    a falsy one (absent, or an empty string) leaves the file's value, and the file's
    keys keep their places.
   */
  lemma CliOverridesOnlyWhenTruthy(file: Dict<string, Option<string>>, cli: Dict<string, Option<string>>, k: string)
    requires file.Valid() && cli.Valid()
    ensures var m := MergeArgs(file, cli, |cli.keys|);
            && (k in m.items <==> k in file.items || (k in cli.items && CliTruthy(k, cli.items[k])))
            && (k in cli.items && CliTruthy(k, cli.items[k]) ==> m.items[k] == cli.items[k])
            && (k in file.items && !(k in cli.items && CliTruthy(k, cli.items[k])) ==> m.items[k] == file.items[k])
  {
    MergeArgsAt(file, cli, |cli.keys|, k);
    assert cli.keys[..|cli.keys|] == cli.keys;
  }

  /** Loading: merge, `Config(**d)`, then `__post_init__`. */
  function Load(file: Dict<string, Option<string>>, cli: Dict<string, Option<string>>, env: Env)
    : Result<Settings, ConfigError>
    requires file.Valid() && cli.Valid()
  {
    match Kwargs(MergeArgs(file, cli, |cli.keys|))
    case Err(e) => Err(e)
    case Ok(s) => Settle(s, env)
  }

  // ---------------------------------------------------------------------------
  // The configuration object
  // ---------------------------------------------------------------------------

  class Config {
    var repoName: Option<string>
    var repoAddonId: Option<string>
    var repoAddonVersion: Option<string>
    var repoAddonAuthor: Option<string>
    var repoAddonSummary: Option<string>
    var repoAddonDescription: Option<string>
    var repoUrl: Option<string>
    var addonsDir: Option<string>
    var repoDir: Option<string>

    function Snapshot(): Settings
      reads this
    {
      Settings(repoName, repoAddonId, repoAddonVersion, repoAddonAuthor, repoAddonSummary,
               repoAddonDescription, repoUrl, addonsDir, repoDir)
    }

    /** The dataclass `__init__`: the fields as given. */
    constructor (s: Settings)
      ensures Snapshot() == s
    {
      repoName, repoAddonId, repoAddonVersion := s.repoName, s.repoAddonId, s.repoAddonVersion;
      repoAddonAuthor, repoAddonSummary := s.repoAddonAuthor, s.repoAddonSummary;
      repoAddonDescription, repoUrl := s.repoAddonDescription, s.repoUrl;
      addonsDir, repoDir := s.addonsDir, s.repoDir;
    }

    /** `as_dict`: reading it back gives this configuration's settings. */
    function AsDict(): (d: Dict<string, Option<string>>)
      reads this
      ensures d.Valid() && d.keys == Names()
      ensures Kwargs(d) == Ok(Snapshot())
    {
      SavedConfigReloads(Snapshot());
      ToDict(Snapshot())
    }

    /** `__post_init__`. */
    method PostInit(env: Env) returns (o: Outcome<ConfigError>)
      modifies this
      ensures Settle(old(Snapshot()), env).Err? <==> o.Fail?
      ensures o.Fail? ==> o.error == Settle(old(Snapshot()), env).error
      ensures o.Pass? ==> Snapshot() == Settle(old(Snapshot()), env).value
    {
      var a := ResolvePath(addonsDir, env);
      if a.Err? {
        return Fail(a.error);
      }
      addonsDir := a.value;
      var r := ResolvePath(repoDir, env);
      if r.Err? {
        return Fail(r.error);
      }
      repoDir := r.value;
      o := Validate(env);
    }

    /** `__validate`: collect the missing and the wrong arguments, trimming the URL on the way. */
    method Validate(env: Env) returns (o: Outcome<ConfigError>)
      modifies this`repoUrl
      ensures o == ValidationOutcome(old(Snapshot()), env)
      ensures Snapshot() == Trimmed(old(Snapshot()))
    {
      var s := Snapshot();
      var missing: seq<string> := [];
      var wrong: seq<string> := [];
      missing := CheckGiven(s, RepoName, missing);
      missing, wrong := CheckId(s, missing);
      missing := CheckGiven(s, RepoAddonVersion, missing);
      missing := CheckGiven(s, RepoAddonAuthor, missing);
      missing := CheckGiven(s, RepoAddonSummary, missing);
      missing := CheckGiven(s, RepoAddonDescription, missing);
      missing, wrong := CheckUrl(s, env, missing, wrong);
      missing, wrong := CheckAddonsDir(s, env, missing, wrong);
      missing := CheckGiven(s, RepoDir, missing);

      if missing != [] {
        return Fail(MissingArgs(missing));
      }
      if wrong != [] {
        return Fail(WrongArgs(wrong));
      }
      o := Pass;
    }

    /** The URL check of `__validate`: when given, drop one trailing slash, then ask for a scheme and a host. */
    method CheckUrl(s: Settings, env: Env, missing: seq<string>, wrong: seq<string>) returns (m: seq<string>, w: seq<string>)
      modifies this`repoUrl
      requires s == Snapshot()
      requires missing == FlagsOf(MissingFields(s, RepoUrl.Index()))
      requires wrong == IdProblems(s)
      ensures m == FlagsOf(MissingFields(s, RepoUrl.Index() + 1))
      ensures w == IdProblems(s) + UrlProblems(s, env)
      ensures Snapshot() == Trimmed(s)
    {
      m, w := missing, wrong;
      if !Present(RepoUrl, repoUrl) {
        FlagsOfSnoc(MissingFields(s, RepoUrl.Index()), RepoUrl);
        m := m + [RepoUrl.Flag()];
      } else {
        if EndsWith(repoUrl.value, "/") {
          repoUrl := Some(repoUrl.value[..|repoUrl.value| - 1]);
        }
        if !env.urlHasSchemeAndNetloc(repoUrl.value) {
          w := w + [UrlMessage];
        }
      }
    }

    /** The addons directory check of `__validate`: when given, it must be a directory. */
    method CheckAddonsDir(s: Settings, env: Env, missing: seq<string>, wrong: seq<string>)
      returns (m: seq<string>, w: seq<string>)
      requires missing == FlagsOf(MissingFields(s, AddonsDir.Index()))
      requires wrong == IdProblems(s) + UrlProblems(s, env)
      ensures m == FlagsOf(MissingFields(s, AddonsDir.Index() + 1))
      ensures w == Wrong(s, env)
    {
      m, w := missing, wrong;
      if !Present(AddonsDir, s.addonsDir) {
        FlagsOfSnoc(MissingFields(s, AddonsDir.Index()), AddonsDir);
        m := m + [AddonsDir.Flag()];
      } else if !env.isDir(s.addonsDir.value) {
        w := w + [DirMessage];
      }
    }
  }

  /** The id check of `__validate`: when given, it must start with `repository.`. */
  method CheckId(s: Settings, missing: seq<string>) returns (m: seq<string>, w: seq<string>)
    requires missing == FlagsOf(MissingFields(s, RepoAddonId.Index()))
    ensures m == FlagsOf(MissingFields(s, RepoAddonId.Index() + 1))
    ensures w == IdProblems(s)
  {
    m, w := missing, [];
    if !Present(RepoAddonId, s.repoAddonId) {
      FlagsOfSnoc(MissingFields(s, RepoAddonId.Index()), RepoAddonId);
      m := m + [RepoAddonId.Flag()];
    } else if !StartsWith(s.repoAddonId.value, IdPrefix) {
      w := w + [IdMessage];
    }
  }

  /** A check of `__validate` that only asks for a value: `if not self.<x>: missing_args.append(<flag>)`. */
  method CheckGiven(s: Settings, x: Field, missing: seq<string>) returns (m: seq<string>)
    requires missing == FlagsOf(MissingFields(s, x.Index()))
    ensures m == FlagsOf(MissingFields(s, x.Index() + 1))
  {
    m := missing;
    if !Present(x, s.Get(x)) {
      FlagsOfSnoc(MissingFields(s, x.Index()), x);
      m := m + [x.Flag()];
    }
  }

  /**
    Loading a configuration: merge the file with the command line, build the object
    and run its checks. On success the object holds the settled settings.
   */
  method LoadConfig(file: Dict<string, Option<string>>, cli: Dict<string, Option<string>>, env: Env)
    returns (r: Result<Config, ConfigError>)
    requires file.Valid() && cli.Valid()
    ensures r.Ok? <==> Load(file, cli, env).Ok?
    ensures r.Err? ==> r.error == Load(file, cli, env).error
    ensures r.Ok? ==> fresh(r.value) && r.value.Snapshot() == Load(file, cli, env).value
  {
    var merged := MergeArgs(file, cli, |cli.keys|);
    var kwargs := Kwargs(merged);
    if kwargs.Err? {
      return Err(kwargs.error);
    }
    var config := new Config(kwargs.value);
    var o := config.PostInit(env);
    if o.Fail? {
      return Err(o.error);
    }
    r := Ok(config);
  }
}

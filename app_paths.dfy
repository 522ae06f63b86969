/** Where the desktop wrapper keeps its files (`wrapper/src-tauri/src/paths.rs`):
    the application data directory of each platform, the paths under it,
    and the creation of its directories. The home directory the platform
    reports, the environment and whether creating a directory succeeds are
    parameters. */
module AppPaths {
  import opened Wrappers
  import opened Text
  import opened Environment

  datatype Platform = MacOS | Windows | Linux

  /** `Path::join` with the platform's separator. A Windows path may use
      either slash; it is joined with a backslash. */
  function Join(platform: Platform, base: string, rel: string): string {
    if platform == Windows then
      if base == [] || IsSeparator(platform, base[|base| - 1]) then base + rel else base + "\\" + rel
    else JoinPath(base, rel)
  }

  predicate IsSeparator(platform: Platform, c: char) {
    c == '/' || (platform == Windows && c == '\\')
  }

  const HomeError: string := "Failed to get home directory - neither dirs::home_dir() nor HOME env var worked"
  const AppDataError: string := "APPDATA environment variable not set"

  /** `get_app_data_dir`: under the home directory (the one the platform
      reports, else HOME) on macOS and Linux, under APPDATA on Windows. */
  function AppDataDir(platform: Platform, homeDir: Option<string>, env: Env): Result<string, string> {
    match platform
    case Windows =>
      (match Var(env, "APPDATA")
       case None => Err(AppDataError)
       case Some(appData) => Ok(Join(Windows, appData, DataDirPath(Windows))))
    case _ =>
      var home := if homeDir.Some? then homeDir else Var(env, "HOME");
      match home
      case None => Err(HomeError)
      case Some(h) => Ok(Join(platform, h, DataDirPath(platform)))
  }

  /** The last component of the data directory: "Porua", as the Windows
      uninstaller expects, on macOS and Windows; "porua" on Linux. */
  function DirName(platform: Platform): string {
    if platform == Linux then "porua" else "Porua"
  }

  /** The base the data directory is joined to, when there is one. */
  function DataDirBase(platform: Platform, homeDir: Option<string>, env: Env): Option<string> {
    if platform == Windows then Var(env, "APPDATA")
    else if homeDir.Some? then homeDir else Var(env, "HOME")
  }

  /** The data directory is its base joined with its relative path, and it
      fails exactly when its base is missing, with the message of its
      platform. */
  lemma AppDataDirSpec(platform: Platform, homeDir: Option<string>, env: Env)
    ensures DataDirBase(platform, homeDir, env).Some? ==>
      AppDataDir(platform, homeDir, env) == Ok(Join(platform, DataDirBase(platform, homeDir, env).value, DataDirPath(platform)))
    ensures platform == Windows ==> (AppDataDir(platform, homeDir, env) == Err(AppDataError) <==> "APPDATA" !in env)
    ensures platform != Windows ==> (AppDataDir(platform, homeDir, env) == Err(HomeError) <==> homeDir.None? && "HOME" !in env)
  {
  }

  /** The data directory ends with its name as a component of its own. */
  lemma AppDataDirNamed(platform: Platform, homeDir: Option<string>, env: Env)
    ensures AppDataDir(platform, homeDir, env).Ok? ==>
      var dir := AppDataDir(platform, homeDir, env).value;
      |dir| >= 5 && dir[|dir| - 5..] == DirName(platform) &&
      (|dir| > 5 ==> IsSeparator(platform, dir[|dir| - 6]))
  {
    AppDataDirSpec(platform, homeDir, env);
    if DataDirBase(platform, homeDir, env).Some? {
      var rel := DataDirPath(platform);
      JoinKeepsName(platform, DataDirBase(platform, homeDir, env).value, rel);
      assert rel[|rel| - 5..] == DirName(platform);
    }
  }

  /** The data directory relative to its base: its name, under
      "Library/Application Support" on macOS and ".config" on Linux. */
  function DataDirPath(platform: Platform): (rel: string)
    ensures |rel| >= 5 && rel[0] != '/' && rel[0] != '\\' && rel[|rel| - 5..] == DirName(platform)
    ensures |rel| > 5 ==> rel[|rel| - 6] == '/'
  {
    var name := DirName(platform);
    var parent := if platform == MacOS then "Library/Application Support" else ".config";
    assert parent[0] != '/' && parent[0] != '\\';
    var rel := if platform == Windows then name else parent + "/" + name;
    assert rel[|rel| - 5..] == name;
    rel
  }

  /** A relative path whose last five characters are a component of
      their own keeps them so when joined to a base. */
  lemma JoinKeepsName(platform: Platform, base: string, rel: string)
    requires |rel| >= 5 && rel[0] != '/' && rel[0] != '\\'
    requires |rel| > 5 ==> rel[|rel| - 6] == '/'
    ensures var dir := Join(platform, base, rel);
      |dir| >= 5 && dir[|dir| - 5..] == rel[|rel| - 5..] &&
      (|dir| > 5 ==> IsSeparator(platform, dir[|dir| - 6]))
  {
    var dir := Join(platform, base, rel);
    var pre := if base == [] || IsSeparator(platform, base[|base| - 1]) then base
      else base + (if platform == Windows then "\\" else "/");
    assert dir == pre + rel;
    assert pre != [] ==> IsSeparator(platform, pre[|pre| - 1]);
    SuffixOfConcat(pre, rel);
  }

  lemma SuffixOfConcat(pre: string, rel: string)
    requires |rel| >= 5
    ensures (pre + rel)[|pre + rel| - 5..] == rel[|rel| - 5..]
    ensures |pre + rel| > 5 ==> (pre + rel)[|pre + rel| - 6] == if |rel| > 5 then rel[|rel| - 6] else pre[|pre| - 1]
  {
  }

  /** Joining a relative path gives a path inside the base that ends with
      the relative path, or the relative path alone when the base is
      empty. */
  lemma JoinWithin(platform: Platform, base: string, rel: string)
    requires rel != [] && rel[0] != '/' && rel[0] != '\\'
    ensures var p := Join(platform, base, rel);
      (base == [] ==> p == rel) &&
      (base != [] ==> Within(platform, base, p)) &&
      |p| >= |rel| && p[|p| - |rel|..] == rel
  {
    var p := Join(platform, base, rel);
    if base == [] {
      assert base + rel == rel;
    } else if IsSeparator(platform, base[|base| - 1]) {
      assert p == base + rel;
      assert p[..|base|] == base;
    } else {
      var sep := if platform == Windows then "\\" else "/";
      assert p == base + sep + rel;
      assert p[..|base|] == base;
      assert p[|base|] == sep[0];
    }
  }

  // ---------------------------------------------------------------------------
  // The paths under it
  // ---------------------------------------------------------------------------

  datatype AppFile = ServerBinary | ModelsDir | SamplesDir | EspeakDataDir | LogsDir | ConfigFile | InstallFlag | EnvFile

  /** Where each file or directory lies relative to the data directory. */
  function RelativePath(f: AppFile): (rel: string)
    ensures rel != [] && rel[0] != '/' && rel[0] != '\\'
  {
    match f
    case ServerBinary => "bin/porua_server"
    case ModelsDir => "models"
    case SamplesDir => "samples"
    case EspeakDataDir => "espeak-ng-data"
    case LogsDir => "logs"
    case ConfigFile => "config.json"
    case InstallFlag => "installed.flag"
    case EnvFile => ".env"
  }

  /** `get_server_binary_path`, `get_models_dir` and the other getters. */
  function AppFilePath(platform: Platform, homeDir: Option<string>, env: Env, f: AppFile): Result<string, string> {
    match AppDataDir(platform, homeDir, env)
    case Err(e) => Err(e)
    case Ok(dir) => Ok(Join(platform, dir, RelativePath(f)))
  }

  /** `p` lies strictly inside `dir`: it starts with `dir` and continues
      after a separator. */
  predicate Within(platform: Platform, dir: string, p: string) {
    |dir| < |p| && p[..|dir|] == dir &&
    (IsSeparator(platform, p[|dir|]) || (dir != [] && IsSeparator(platform, dir[|dir| - 1])))
  }

  /** Every path lies inside the data directory, which the uninstaller
      removes whole, and ends with its relative path; it fails exactly
      when the data directory does. */
  lemma AppFilesWithin(platform: Platform, homeDir: Option<string>, env: Env, f: AppFile)
    ensures AppFilePath(platform, homeDir, env, f).Ok? <==> AppDataDir(platform, homeDir, env).Ok?
    ensures AppFilePath(platform, homeDir, env, f).Ok? ==>
      var dir := AppDataDir(platform, homeDir, env).value;
      var p := AppFilePath(platform, homeDir, env, f).value;
      var rel := RelativePath(f);
      Within(platform, dir, p) && |p| >= |rel| && p[|p| - |rel|..] == rel
  {
    if AppDataDir(platform, homeDir, env).Ok? {
      var dir := AppDataDir(platform, homeDir, env).value;
      var rel := RelativePath(f);
      JoinWithin(platform, dir, rel);
      NotEmpty(platform, homeDir, env);
    }
  }

  /** The data directory is never the empty path. */
  lemma NotEmpty(platform: Platform, homeDir: Option<string>, env: Env)
    ensures AppDataDir(platform, homeDir, env).Ok? ==> AppDataDir(platform, homeDir, env).value != []
  {
    AppDataDirNamed(platform, homeDir, env);
  }

  // ---------------------------------------------------------------------------
  // Creating the directories
  // ---------------------------------------------------------------------------

  /** The subdirectories `ensure_directories_exist` creates after the data
      directory, in order. */
  const Subdirectories: seq<string> := ["bin", "models", "samples", "espeak-ng-data", "logs"]

  /** The message of a failed creation. */
  function Failure(what: string): string {
    "Failed to create " + what + " directory"
  }

  /** The directories `ensure_directories_exist` creates, in order, each
      with the message of its failure. */
  function RequiredDirs(platform: Platform, app: string): seq<(string, string)> {
    [(app, Failure("app data"))] + Subdirs(platform, app, Subdirectories)
  }

  function Subdirs(platform: Platform, app: string, names: seq<string>): seq<(string, string)> {
    if names == [] then []
    else [(Join(platform, app, names[0]), Failure(names[0]))] + Subdirs(platform, app, names[1..])
  }

  /** Creates the directories in order, stopping at the first that fails. */
  function CreateAll(dirs: seq<(string, string)>, creates: string -> bool): Result<(), string> {
    if dirs == [] then Ok(())
    else if !creates(dirs[0].0) then Err(dirs[0].1)
    else CreateAll(dirs[1..], creates)
  }

  /** `ensure_directories_exist`. */
  function EnsureDirectoriesExist(platform: Platform, homeDir: Option<string>, env: Env, creates: string -> bool): Result<(), string> {
    match AppDataDir(platform, homeDir, env)
    case Err(e) => Err(e)
    case Ok(app) => CreateAll(RequiredDirs(platform, app), creates)
  }

  /** Creation succeeds exactly when every directory is created; failing,
      it reports the first directory that was not, and every one before it
      was created. */
  lemma {:induction false} CreateAllSpec(dirs: seq<(string, string)>, creates: string -> bool)
    ensures CreateAll(dirs, creates).Ok? <==> forall i :: 0 <= i < |dirs| ==> creates(dirs[i].0)
    ensures CreateAll(dirs, creates).Err? ==>
      exists k :: 0 <= k < |dirs| && !creates(dirs[k].0) && CreateAll(dirs, creates).error == dirs[k].1 &&
        forall i :: 0 <= i < k ==> creates(dirs[i].0)
  {
    if dirs != [] && creates(dirs[0].0) {
      CreateAllSpec(dirs[1..], creates);
      if CreateAll(dirs, creates).Err? {
        var k :| 0 <= k < |dirs[1..]| && !creates(dirs[1..][k].0) && CreateAll(dirs[1..], creates).error == dirs[1..][k].1 &&
          forall i :: 0 <= i < k ==> creates(dirs[1..][i].0);
        assert !creates(dirs[k + 1].0) && forall i :: 0 <= i < k + 1 ==> creates(dirs[i].0);
      }
    } else if dirs != [] {
      assert !creates(dirs[0].0);
    }
  }

  /** Each subdirectory is its name joined to the data directory, and lies
      inside it. */
  lemma {:induction false} SubdirsWithin(platform: Platform, app: string, names: seq<string>)
    requires app != []
    requires forall i :: 0 <= i < |names| ==> names[i] != [] && names[i][0] != '/' && names[i][0] != '\\'
    ensures |Subdirs(platform, app, names)| == |names|
    ensures forall i :: 0 <= i < |names| ==>
      Subdirs(platform, app, names)[i] == (Join(platform, app, names[i]), Failure(names[i])) &&
      Within(platform, app, Subdirs(platform, app, names)[i].0)
  {
    if names != [] {
      SubdirsWithin(platform, app, names[1..]);
      JoinWithin(platform, app, names[0]);
    }
  }

  /** None of the subdirectory names is empty or absolute. */
  lemma SubdirectoriesRelative()
    ensures forall i :: 0 <= i < |Subdirectories| ==>
      Subdirectories[i] != [] && Subdirectories[i][0] != '/' && Subdirectories[i][0] != '\\'
  {
    assert Subdirectories[0][0] == 'b' && Subdirectories[1][0] == 'm' && Subdirectories[2][0] == 's';
    assert Subdirectories[3][0] == 'e' && Subdirectories[4][0] == 'l';
  }

  /** The data directory comes first; every subdirectory after it lies
      inside it, the models and logs directories being the paths their
      getters join to it. */
  lemma RequiredDirsWithin(platform: Platform, app: string)
    requires app != []
    ensures var dirs := RequiredDirs(platform, app);
      |dirs| == 6 && dirs[0] == (app, Failure("app data")) &&
      (forall i :: 1 <= i < |dirs| ==> Within(platform, app, dirs[i].0) && dirs[i].1 == Failure(Subdirectories[i - 1])) &&
      dirs[2].0 == Join(platform, app, RelativePath(ModelsDir)) &&
      dirs[5].0 == Join(platform, app, RelativePath(LogsDir))
  {
    SubdirectoriesRelative();
    SubdirsWithin(platform, app, Subdirectories);
    var dirs := RequiredDirs(platform, app);
    assert dirs[1..] == Subdirs(platform, app, Subdirectories);
  }

  /** Creating the required directories succeeds exactly when the data
      directory and every subdirectory are created, and stops first at a
      data directory that cannot be created. */
  lemma CreateRequired(platform: Platform, app: string, creates: string -> bool)
    requires app != []
    ensures CreateAll(RequiredDirs(platform, app), creates).Ok? <==>
      creates(app) && forall i :: 0 <= i < |Subdirectories| ==> creates(Join(platform, app, Subdirectories[i]))
    ensures !creates(app) ==> CreateAll(RequiredDirs(platform, app), creates) == Err(Failure("app data"))
  {
    var dirs := RequiredDirs(platform, app);
    CreateAllSpec(dirs, creates);
    SubdirectoriesRelative();
    SubdirsWithin(platform, app, Subdirectories);
    assert dirs[1..] == Subdirs(platform, app, Subdirectories);
    assert forall i :: 0 <= i < |Subdirectories| ==> dirs[i + 1].0 == Join(platform, app, Subdirectories[i]);
  }

  /** `ensure_directories_exist` fails like the data directory when that
      fails; otherwise it succeeds exactly when every directory is created,
      and a data directory that cannot be created stops it first. */
  lemma EnsureDirectoriesSpec(platform: Platform, homeDir: Option<string>, env: Env, creates: string -> bool)
    ensures AppDataDir(platform, homeDir, env).Err? ==>
      EnsureDirectoriesExist(platform, homeDir, env, creates) == Err(AppDataDir(platform, homeDir, env).error)
    ensures AppDataDir(platform, homeDir, env).Ok? ==>
      var app := AppDataDir(platform, homeDir, env).value;
      (EnsureDirectoriesExist(platform, homeDir, env, creates).Ok? <==>
        creates(app) && forall i :: 0 <= i < |Subdirectories| ==> creates(Join(platform, app, Subdirectories[i]))) &&
      (!creates(app) ==> EnsureDirectoriesExist(platform, homeDir, env, creates) == Err(Failure("app data")))
  {
    if AppDataDir(platform, homeDir, env).Ok? {
      NotEmpty(platform, homeDir, env);
      CreateRequired(platform, AppDataDir(platform, homeDir, env).value, creates);
    }
  }
}

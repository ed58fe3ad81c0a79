/**
 The container entry point of move_items_docker.py: `main` reads its settings from
 the environment, validates them, initialises the storage client from a cookie
 (`init_client_from_env`) and starts the automatic move task. Environment access,
 the cookie file and the cookie check against the service are inputs here:
 the environment as a map, the file as its state, the check as a predicate.
 */
module DockerMain {
  import opened Base
  import opened Text
  import SizeParse
  import PathResolve
  import MoveCycle
  import Remote

  // ---------------------------------------------------------------- integers

  /** The strings Python's `int()` accepts once surrounding whitespace is gone:
      an optional sign followed by at least one ASCII digit. */
  predicate IsIntLiteral(s: string) {
    if |s| > 0 && (s[0] == '-' || s[0] == '+') then |s| > 1 && AllDigits(s[1..])
    else |s| > 0 && AllDigits(s)
  }

  /** `int(s)`; `None` where it raises `ValueError`. */
  function ParseInt(s: string): (r: Option<int>)
    ensures r.Some? <==> IsIntLiteral(s)
    ensures r.Some? && s[0] == '-' ==> r.value <= 0
    ensures r.Some? && s[0] != '-' ==> r.value >= 0
    ensures s != [] && AllDigits(s) ==> r == Some(DigitsValue(s))
    ensures r.Some? && (s[0] == '-' || s[0] == '+') ==>
              AllDigits(s[1..]) &&
              r.value == (if s[0] == '-' then -(DigitsValue(s[1..]) as int) else DigitsValue(s[1..]))
  {
    if |s| > 0 && (s[0] == '-' || s[0] == '+') then
      if |s| > 1 && AllDigits(s[1..]) then
        var magnitude: int := DigitsValue(s[1..]);
        Some(if s[0] == '-' then -magnitude else magnitude)
      else None
    else if |s| > 0 && AllDigits(s) then Some(DigitsValue(s))
    else None
  }

  /** A sign is read as Python reads it: `int("+7") == 7` and `int("-12") == -12`. */
  lemma SignedLiterals()
    ensures ParseInt("+7") == Some(7) && ParseInt("-12") == Some(-12)
  {
    assert "+7"[1..] == "7" && "-12"[1..] == "12";
    assert "12"[..1] == "1";
    assert DigitsValue("12") == 12;
  }

  /** `str(n)`. */
  function ShowInt(n: int): (s: string)
    ensures s != []
  {
    if n < 0 then "-" + ShowNat(-n) else ShowNat(n)
  }

  /** `int(str(n)) == n`. */
  lemma ParseShowInt(n: int)
    ensures ParseInt(ShowInt(n)) == Some(n)
  {
    if n < 0 {
      var s := ShowInt(n);
      assert s[1..] == ShowNat(-n);
    }
  }

  // ---------------------------------------------------------------- settings

  /** `os.environ.get(key, default)`. */
  function Lookup(env: map<string, string>, key: string, default: string): string {
    if key in env then env[key] else default
  }

  /** `os.environ.get(key, default).strip()`. */
  function Setting(env: map<string, string>, key: string, default: string): string {
    Strip(Lookup(env, key, default))
  }

  /** The log retention: `LOG_RETENTION_DAYS` when it is an integer of at least 1,
      7 otherwise. */
  function LogRetentionDays(raw: string): (days: int)
    ensures days >= 1
    ensures (ParseInt(raw).Some? && ParseInt(raw).value >= 1) ==> days == ParseInt(raw).value
    ensures !(ParseInt(raw).Some? && ParseInt(raw).value >= 1) ==> days == 7
  {
    match ParseInt(raw)
    case Some(n) => if n < 1 then 7 else n
    case None => 7
  }

  /** The check interval in minutes: `CHECK_INTERVAL` raised to at least 2, or `None`
      when it is not an integer. */
  function CheckInterval(raw: string): (minutes: Option<int>)
    ensures minutes.None? <==> ParseInt(raw).None?
    ensures minutes.Some? ==> minutes.value >= 2
    ensures minutes.Some? && ParseInt(raw).value >= 2 ==> minutes.value == ParseInt(raw).value
    ensures minutes.Some? && ParseInt(raw).value < 2 ==> minutes.value == 2
  {
    match ParseInt(raw)
    case Some(n) => Some(if n < 2 then 2 else n)
    case None => None
  }

  /** The settings the automatic mode runs with. */
  datatype AutoConfig = AutoConfig(sourcePath: string, targetPath: string, intervalMinutes: int, minSizeBytes: nat)

  /** Why `main` gives up in automatic mode before touching the client. */
  datatype ConfigError = MissingSource | MissingTarget | BadInterval | BadMinSize

  /** The checks of `main` in automatic mode, in their order: source path, target path,
      `CHECK_INTERVAL` (default "5"), `MIN_FILE_SIZE` (default "200MB"). */
  function ValidateAuto(env: map<string, string>): (r: Result<AutoConfig, ConfigError>)
    ensures r == Failure(MissingSource) <==> Setting(env, "SOURCE_PATH", "") == ""
    ensures r == Failure(MissingTarget) <==>
              Setting(env, "SOURCE_PATH", "") != "" && Setting(env, "TARGET_PATH", "") == ""
    ensures r == Failure(BadInterval) <==>
              && Setting(env, "SOURCE_PATH", "") != "" && Setting(env, "TARGET_PATH", "") != ""
              && ParseInt(Setting(env, "CHECK_INTERVAL", "5")).None?
    ensures r == Failure(BadMinSize) <==>
              && Setting(env, "SOURCE_PATH", "") != "" && Setting(env, "TARGET_PATH", "") != ""
              && ParseInt(Setting(env, "CHECK_INTERVAL", "5")).Some?
              && SizeParse.ParseFileSize(Setting(env, "MIN_FILE_SIZE", "200MB")).None?
    ensures r.Success? <==>
              && Setting(env, "SOURCE_PATH", "") != "" && Setting(env, "TARGET_PATH", "") != ""
              && ParseInt(Setting(env, "CHECK_INTERVAL", "5")).Some?
              && SizeParse.ParseFileSize(Setting(env, "MIN_FILE_SIZE", "200MB")).Some?
    ensures r.Success? ==>
              && r.value.sourcePath == Setting(env, "SOURCE_PATH", "")
              && r.value.targetPath == Setting(env, "TARGET_PATH", "")
              && Some(r.value.intervalMinutes) == CheckInterval(Setting(env, "CHECK_INTERVAL", "5"))
              && Some(r.value.minSizeBytes) == SizeParse.ParseFileSize(Setting(env, "MIN_FILE_SIZE", "200MB"))
  {
    var source := Setting(env, "SOURCE_PATH", "");
    var target := Setting(env, "TARGET_PATH", "");
    if source == "" then Failure(MissingSource)
    else if target == "" then Failure(MissingTarget)
    else
      match CheckInterval(Setting(env, "CHECK_INTERVAL", "5"))
      case None => Failure(BadInterval)
      case Some(minutes) =>
        match SizeParse.ParseFileSize(Setting(env, "MIN_FILE_SIZE", "200MB"))
        case None => Failure(BadMinSize)
        case Some(bytes) => Success(AutoConfig(source, target, minutes, bytes))
  }

  // ------------------------------------------------------------------ cookie

  /** The cookie file as `init_client_from_env` finds it. */
  datatype CookieFile = NoFile | Unreadable | FileText(text: string)

  /** Why `init_client_from_env` returns `None`. */
  datatype InitError = NoCookie | FileUnreadable | Rejected | SaveFailed

  /** The cookie to try: a non-blank `COOKIE` value wins and the file is not read;
      otherwise the stripped file contents; a read error or nothing at all fails. */
  function SelectCookie(envCookie: string, file: CookieFile): (r: Result<string, InitError>)
    ensures Strip(envCookie) != "" ==> r == Success(Strip(envCookie))
    ensures r == Failure(FileUnreadable) <==> Strip(envCookie) == "" && file.Unreadable?
    ensures r == Failure(NoCookie) <==>
              Strip(envCookie) == "" && (file.NoFile? || (file.FileText? && Strip(file.text) == ""))
    ensures r.Success? ==> r.value != "" && (r.value == Strip(envCookie) || (file.FileText? && r.value == Strip(file.text)))
    ensures Strip(envCookie) == "" && file.FileText? && Strip(file.text) != "" ==> r == Success(Strip(file.text))
  {
    var fromEnv := Strip(envCookie);
    if fromEnv != "" then Success(fromEnv)
    else
      match file
      case NoFile => Failure(NoCookie)
      case Unreadable => Failure(FileUnreadable)
      case FileText(text) => if Strip(text) == "" then Failure(NoCookie) else Success(Strip(text))
  }

  /** A non-blank `COOKIE` variable decides alone: the cookie file plays no part. */
  lemma EnvCookieWins(envCookie: string, f1: CookieFile, f2: CookieFile)
    requires Strip(envCookie) != ""
    ensures SelectCookie(envCookie, f1) == SelectCookie(envCookie, f2)
  {
  }

  /** `init_client_from_env()`: the selected cookie is checked with `accepts` (the
      `user_info` call), then written to the cookie file; `saveOk` says whether that
      write succeeds. The result is the outcome and the cookie file afterwards. */
  function InitClientFromEnv(envCookie: string, file: CookieFile, accepts: string -> bool, saveOk: bool)
    : (r: (Result<string, InitError>, CookieFile))
    ensures SelectCookie(envCookie, file).Failure? ==> r == (SelectCookie(envCookie, file), file)
    ensures r.0.Success? <==> SelectCookie(envCookie, file).Success? && accepts(SelectCookie(envCookie, file).value) && saveOk
    ensures r.0.Success? ==> r.0 == SelectCookie(envCookie, file) && r.1 == FileText(r.0.value)
    ensures r.1 != file ==> r.0.Success?
  {
    match SelectCookie(envCookie, file)
    case Failure(e) => (Failure(e), file)
    case Success(cookie) =>
      if !accepts(cookie) then (Failure(Rejected), file)
      else if !saveOk then (Failure(SaveFailed), file)
      else (Success(cookie), FileText(cookie))
  }

  /** After a successful start the saved cookie is what a restart without `COOKIE` uses. */
  lemma RestartUsesSavedCookie(envCookie: string, file: CookieFile, accepts: string -> bool, emptyEnv: string)
    requires InitClientFromEnv(envCookie, file, accepts, true).0.Success?
    requires Strip(emptyEnv) == ""
    ensures var (r, after) := InitClientFromEnv(envCookie, file, accepts, true);
            SelectCookie(emptyEnv, after) == r
  {
    var cookie := SelectCookie(envCookie, file).value;
    if Strip(envCookie) != "" {
      StripIdempotent(envCookie);
    } else {
      StripIdempotent(file.text);
    }
  }

  // -------------------------------------------------------------------- main

  /** What the run of `auto_move_files_task` is given: the directory listing, the file
      listing per cycle, the move answers and the number of cycles before the interrupt. */
  datatype Service = Service(
    children: int -> seq<PathResolve.DirEntry>,
    scan: (nat, int) -> Option<seq<MoveCycle.FileInfo>>,
    move: MoveCycle.MoveRequest -> Remote.MoveReply,
    cycles: nat)

  /** What `main` did: the log retention it set, the mode, whether it tried to
      initialise the client, the task it ran, its exit code and the cookie file after. */
  datatype MainOutcome = MainOutcome(
    logDays: int,
    mode: string,
    initAttempted: bool,
    task: Option<MoveCycle.TaskOutcome>,
    exitCode: int,
    fileAfter: CookieFile)

  /** `MODE`, default "auto", stripped and lower-cased. */
  function Mode(env: map<string, string>): string {
    Lower(Setting(env, "MODE", "auto"))
  }

  /** `main()`. */
  function Main(env: map<string, string>, file: CookieFile, accepts: string -> bool, saveOk: bool, svc: Service)
    : (o: MainOutcome)
    ensures o.logDays == LogRetentionDays(Setting(env, "LOG_RETENTION_DAYS", "7")) && o.logDays >= 1
    ensures o.exitCode == 0 || o.exitCode == 1
    ensures o.exitCode == 0 <==> o.task.Some?
    ensures o.exitCode == 0 <==>
              && Mode(env) == "auto"
              && ValidateAuto(env).Success?
              && InitClientFromEnv(Lookup(env, "COOKIE", ""), file, accepts, saveOk).0.Success?
    ensures o.initAttempted <==> Mode(env) != "auto" || ValidateAuto(env).Success?
    ensures o.initAttempted ==> o.fileAfter == InitClientFromEnv(Lookup(env, "COOKIE", ""), file, accepts, saveOk).1
    ensures !o.initAttempted ==> o.fileAfter == file
    ensures o.task.Some? ==>
              var cfg := ValidateAuto(env).value;
              o.task.value == MoveCycle.AutoMoveTask(cfg.sourcePath, cfg.targetPath, cfg.minSizeBytes, svc.cycles,
                                                     svc.children, svc.scan, svc.move)
  {
    var days := LogRetentionDays(Setting(env, "LOG_RETENTION_DAYS", "7"));
    var mode := Mode(env);
    var cookieEnv := Lookup(env, "COOKIE", "");
    if mode == "auto" then
      match ValidateAuto(env)
      case Failure(_) => MainOutcome(days, mode, false, None, 1, file)
      case Success(cfg) =>
        var (init, after) := InitClientFromEnv(cookieEnv, file, accepts, saveOk);
        if init.Failure? then MainOutcome(days, mode, true, None, 1, after)
        else
          var task := MoveCycle.AutoMoveTask(cfg.sourcePath, cfg.targetPath, cfg.minSizeBytes, svc.cycles,
                                             svc.children, svc.scan, svc.move);
          MainOutcome(days, mode, true, Some(task), 0, after)
    else
      var (_, after) := InitClientFromEnv(cookieEnv, file, accepts, saveOk);
      MainOutcome(days, mode, true, None, 1, after)
  }

  /** In automatic mode a configuration error ends `main` with 1 before the client is
      initialised: the cookie, its check and the cookie file play no part. */
  lemma ConfigErrorPrecedesInit(env: map<string, string>, file: CookieFile, accepts: string -> bool, saveOk: bool, svc: Service)
    requires Mode(env) == "auto" && ValidateAuto(env).Failure?
    ensures var o := Main(env, file, accepts, saveOk, svc);
            o.exitCode == 1 && !o.initAttempted && o.task.None? && o.fileAfter == file
  {
  }

  /** Any mode other than "auto" exits with 1, even once the client is ready (the
      cookie is still checked and saved). */
  lemma OtherModeExitsOne(env: map<string, string>, file: CookieFile, accepts: string -> bool, saveOk: bool, svc: Service)
    requires Mode(env) != "auto"
    ensures var o := Main(env, file, accepts, saveOk, svc);
            o.exitCode == 1 && o.initAttempted && o.task.None?
  {
  }

  /** `main` exits with 0 once the task is started, whatever the task returns: even when
      the source directory does not exist and the task returns `False`. */
  lemma ExitZeroIgnoresTaskResult(env: map<string, string>, file: CookieFile, accepts: string -> bool, saveOk: bool, svc: Service)
    requires Mode(env) == "auto" && ValidateAuto(env).Success?
    requires InitClientFromEnv(Lookup(env, "COOKIE", ""), file, accepts, saveOk).0.Success?
    requires PathResolve.FindDirectoryByPath(ValidateAuto(env).value.sourcePath, 0, svc.children).None?
    ensures var o := Main(env, file, accepts, saveOk, svc);
            && o.task == Some(MoveCycle.SourceNotFound)
            && !MoveCycle.Returned(o.task.value)
            && o.exitCode == 0
  {
  }

  /** With the interval and minimum size unset, the defaults apply: a 5-minute interval
      and a 200 MiB minimum size. */
  lemma Defaults(env: map<string, string>)
    requires Setting(env, "SOURCE_PATH", "") != "" && Setting(env, "TARGET_PATH", "") != ""
    requires "CHECK_INTERVAL" !in env && "MIN_FILE_SIZE" !in env
    ensures ValidateAuto(env) ==
            Success(AutoConfig(Setting(env, "SOURCE_PATH", ""), Setting(env, "TARGET_PATH", ""), 5, 209715200))
  {
    DefaultSetting(env, "CHECK_INTERVAL", "5");
    DefaultInterval();
    DefaultSetting(env, "MIN_FILE_SIZE", "200MB");
    SizeParse.DefaultMinimumSize();
    ValidSettings(env, 5, 209715200);
  }

  /** With both paths set, an interval and a size that parse make the settings valid. */
  lemma ValidSettings(env: map<string, string>, minutes: int, bytes: nat)
    requires Setting(env, "SOURCE_PATH", "") != "" && Setting(env, "TARGET_PATH", "") != ""
    requires CheckInterval(Setting(env, "CHECK_INTERVAL", "5")) == Some(minutes)
    requires SizeParse.ParseFileSize(Setting(env, "MIN_FILE_SIZE", "200MB")) == Some(bytes)
    ensures ValidateAuto(env) ==
            Success(AutoConfig(Setting(env, "SOURCE_PATH", ""), Setting(env, "TARGET_PATH", ""), minutes, bytes))
  {
  }

  /** An unset variable reads as its default, which has no whitespace to strip. */
  lemma DefaultSetting(env: map<string, string>, key: string, default: string)
    requires key !in env
    requires default != [] && !IsSpace(default[0]) && !IsSpace(default[|default| - 1])
    ensures Setting(env, key, default) == default
  {
    StripUntrimmed(default);
  }

  lemma DefaultInterval()
    ensures CheckInterval("5") == Some(5)
  {
    assert AllDigits("5");
    assert DigitsValue("5") == 5;
  }
}

/**
  `tukx gen`: option conflict checks, defaults, the target path of the
  unit file, and the pipeline that ties the components together. The
  operating-system queries (`os.getlogin()`, `os.getcwd()`, the two
  `uuid.uuid4()` values), the editor's text, `str.isprintable`, the first
  word of a line, and the rendering of the unit-file template are
  parameters.
 */
module Gen {
  import opened Wrappers
  import opened PyStr
  import opened EnvList
  import opened CommandInput
  import opened InlineFile

  /** The command-line options of `tukx gen` (`--verbose` only sets up logging). */
  datatype Options = Options(
    description: Option<string>,
    unit: Option<string>,
    user: Option<string>,
    group: Option<string>,
    restart: string,
    workingDirectory: Option<string>,
    environment: seq<string>,
    systemWide: bool,
    shell: bool,
    install: bool,
    replace: bool,
    enable: bool,
    now: bool)

  datatype Conflict =
    | UserWithUserWide       // --user-wide with --user
    | GroupWithUserWide      // --user-wide with --group
    | EnableWithoutInstall   // --enable with --dont-install
    | EnableWithoutUnit      // --enable without --unit

  /** The option values once the defaults are filled in. */
  datatype Resolved = Resolved(
    unit: string,
    user: Option<string>,
    group: Option<string>,
    workingDirectory: string)

  /** Python truthiness of an optional string: present and not empty. */
  predicate Truthy(o: Option<string>) {
    o.Some? && o.value != ""
  }

  /** The conflict the checks report first, in the order they are made. */
  function FirstConflict(opts: Options): (c: Option<Conflict>)
    ensures c.None? <==> (opts.systemWide || (!Truthy(opts.user) && !Truthy(opts.group)))
                         && (opts.enable ==> opts.install && Truthy(opts.unit))
    ensures c == Some(EnableWithoutUnit) ==> opts.enable && !Truthy(opts.unit)
  {
    if !opts.systemWide && Truthy(opts.user) then Some(UserWithUserWide)
    else if !opts.systemWide && Truthy(opts.group) then Some(GroupWithUserWide)
    else if opts.enable && !opts.install then Some(EnableWithoutInstall)
    else if opts.enable && !Truthy(opts.unit) then Some(EnableWithoutUnit)
    else None
  }

  const HomeSpecifier: string := "%h"
  const TempUnitPrefix: string := "tukx-temp-"

  /**
    The checks and the defaults, in source order: the conflicts are found
    on the options as given, BEFORE any default exists, so `--enable`
    without `--unit` fails although a unit name would be generated.
    A system-wide unit defaults its user to the login name and its group
    to the user; the working directory defaults to `~`, `.` (after
    `strip()`) means the current directory, and every `~` then becomes
    `%h`; the unit name defaults to `tukx-temp-<uuid>`.
   */
  function Resolve(opts: Options, login: string, cwd: string, unitUuid: string)
    : (r: Result<Resolved, Conflict>)
    ensures r.Err? <==> FirstConflict(opts).Some?
    ensures r.Err? ==> r.error == FirstConflict(opts).value
    ensures r.Ok? && opts.systemWide ==>
      r.value.user == Some(if Truthy(opts.user) then opts.user.value else login)
      && r.value.group == (if Truthy(opts.group) then opts.group else r.value.user)
    ensures r.Ok? && !opts.systemWide ==> r.value.user == opts.user && r.value.group == opts.group
    ensures r.Ok? ==> '~' !in r.value.workingDirectory
    ensures r.Ok? && !Truthy(opts.workingDirectory) ==> r.value.workingDirectory == HomeSpecifier
    ensures r.Ok? && Truthy(opts.workingDirectory) && Strip(opts.workingDirectory.value) == "." ==>
      r.value.workingDirectory == ReplaceAll(cwd, "~", HomeSpecifier)
    ensures r.Ok? && Truthy(opts.workingDirectory) && Strip(opts.workingDirectory.value) != "." ==>
      r.value.workingDirectory == ReplaceAll(opts.workingDirectory.value, "~", HomeSpecifier)
    ensures (r.Ok? && Truthy(opts.workingDirectory) && Strip(opts.workingDirectory.value) != "."
             && '~' !in opts.workingDirectory.value) ==>
      r.value.workingDirectory == opts.workingDirectory.value
    ensures r.Ok? ==> r.value.unit == if Truthy(opts.unit) then opts.unit.value else TempUnitPrefix + unitUuid
    ensures r.Ok? ==> r.value.unit != ""
  {
    match FirstConflict(opts)
    case Some(conflict) => Err(conflict)
    case None =>
      var user := if opts.systemWide && !Truthy(opts.user) then Some(login) else opts.user;
      var group := if opts.systemWide && !Truthy(opts.group) then user else opts.group;
      var dir :=
        if !Truthy(opts.workingDirectory) then "~"
        else if Strip(opts.workingDirectory.value) == "." then cwd
        else opts.workingDirectory.value;
      var unit := if Truthy(opts.unit) then opts.unit.value else TempUnitPrefix + unitUuid;
      HomeRewrite(dir);
      Ok(Resolved(unit, user, group, ReplaceAll(dir, "~", HomeSpecifier)))
  }

  /**
    `tukx_gen`'s option block as written: a chain of checks that return
    early, then locals rebound one default at a time. It computes `Resolve`.
   */
  method ResolveOptions(opts: Options, login: string, cwd: string, unitUuid: string)
    returns (r: Result<Resolved, Conflict>)
    ensures r == Resolve(opts, login, cwd, unitUuid)
  {
    if !opts.systemWide && Truthy(opts.user) {
      return Err(UserWithUserWide);
    }
    if !opts.systemWide && Truthy(opts.group) {
      return Err(GroupWithUserWide);
    }
    if opts.enable && !opts.install {
      return Err(EnableWithoutInstall);
    }
    if opts.enable && !Truthy(opts.unit) {
      return Err(EnableWithoutUnit);
    }

    var user, group := opts.user, opts.group;
    if opts.systemWide && !Truthy(user) {
      user := Some(login);
    }
    if opts.systemWide && !Truthy(group) {
      group := user;
    }
    var workingDirectory: string;
    if !Truthy(opts.workingDirectory) {
      workingDirectory := "~";
    } else if Strip(opts.workingDirectory.value) == "." {
      workingDirectory := cwd;
    } else {
      workingDirectory := opts.workingDirectory.value;
    }
    workingDirectory := ReplaceAll(workingDirectory, "~", HomeSpecifier);

    var unit := if Truthy(opts.unit) then opts.unit.value else TempUnitPrefix + unitUuid;
    r := Ok(Resolved(unit, user, group, workingDirectory));
  }

  /** `.replace("~", "%h")` removes every `~`, and changes nothing when there is none. */
  lemma HomeRewrite(dir: string)
    ensures '~' !in ReplaceAll(dir, "~", HomeSpecifier)
    ensures '~' !in dir ==> ReplaceAll(dir, "~", HomeSpecifier) == dir
    ensures dir == "~" ==> ReplaceAll(dir, "~", HomeSpecifier) == HomeSpecifier
  {
    ReplaceAllRemovesChar(dir, '~', HomeSpecifier);
    if '~' !in dir {
      CharNotFound(dir, '~');
      ReplaceAllAbsent(dir, "~", HomeSpecifier);
    }
    if dir == "~" {
      ReplaceAllCharStep(dir, '~', HomeSpecifier);
    }
  }

  function TargetFolder(systemWide: bool): string {
    if systemWide then "/etc/systemd/system" else "/etc/systemd/user"
  }

  /** `os.path.join(a, b)`: an absolute `b` discards `a`. */
  function PathJoin(a: string, b: string): (r: string)
    ensures b != [] && b[0] == '/' ==> r == b
    ensures b == [] || b[0] != '/' ==>
      && |a| + |b| <= |r| <= |a| + |b| + 1
      && r[..|a|] == a && r[|r| - |b|..] == b
      && (a != [] ==> r[|r| - |b| - 1] == '/')
  {
    if b != [] && b[0] == '/' then b
    else if a == [] || a[|a| - 1] == '/' then a + b
    else a + "/" + b
  }

  function TargetPath(systemWide: bool, unit: string): (r: string)
    ensures |unit + ".service"| <= |r| && r[|r| - |unit + ".service"|..] == unit + ".service"
  {
    PathJoin(TargetFolder(systemWide), unit + ".service")
  }

  /**
    The unit file goes to `/etc/systemd/system/<unit>.service` or
    `/etc/systemd/user/<unit>.service` by scope; a unit name that starts
    with `/` is taken as the whole path instead.
   */
  lemma TargetPathByScope(systemWide: bool, unit: string)
    ensures unit == [] || unit[0] != '/' ==>
      TargetPath(systemWide, unit)
        == (if systemWide then "/etc/systemd/system/" else "/etc/systemd/user/") + unit + ".service"
    ensures unit != [] && unit[0] == '/' ==> TargetPath(systemWide, unit) == unit + ".service"
  {
    var folder := TargetFolder(systemWide);
    var file := unit + ".service";
    assert folder[|folder| - 1] != '/';
    assert file[0] == if unit == [] then '.' else unit[0];
    if unit == [] || unit[0] != '/' {
      assert TargetPath(systemWide, unit) == folder + "/" + file;
      assert folder + "/" == if systemWide then "/etc/systemd/system/" else "/etc/systemd/user/";
    }
  }

  /** The fields handed to the unit-file template. */
  datatype ServiceFields = ServiceFields(
    description: Option<string>,
    unit: string,
    user: Option<string>,
    group: Option<string>,
    workingDirectory: string,
    environment: seq<string>,
    command: string,
    restart: string,
    install: bool)

  /** The unit-file fields for the options, their resolved defaults and the command. */
  function Fields(opts: Options, res: Resolved, command: string): ServiceFields {
    ServiceFields(opts.description, res.unit, res.user, res.group, res.workingDirectory,
                  opts.environment, command, opts.restart, opts.install)
  }

  /**
    The fields handed to the script template: the rendered unit file with
    its destination and here-document sentinel, and the control flags.
   */
  datatype Script = Script(
    fields: ServiceFields,
    service: string,
    targetPath: string,
    sentinel: string,
    systemWide: bool,
    enable: bool,
    now: bool,
    replace: bool)

  datatype GenError =
    | ConflictingOptions(conflict: Conflict)
    | BadCommand(commandError: CommandError)
    | BadEnvironment(envError: EnvError)
    | BadSentinel(sentinelError: SentinelError)

  /**
    `parse_command_input(click.edit(), shell).replace("\n", "\\\n")`:
    the only failure is several non-blank lines without shell mode.
   */
  method ReadCommand(editorText: string, shell: bool, firstToken: string -> string)
    returns (c: Result<string, CommandError>)
    ensures c.Err? <==> ParseCommandInput(editorText, shell, firstToken).Err?
    ensures c.Err? ==> c.error == ParseCommandInput(editorText, shell, firstToken).error
                       && !shell && |NonBlankLines(editorText)| > 1
    ensures c.Ok? ==> c.value == ContinueLines(ParseCommandInput(editorText, shell, firstToken).value)
  {
    var parsed := ParseCommandInput(editorText, shell, firstToken);
    if parsed.Err? {
      return Err(parsed.error);
    }
    c := Ok(ContinueLines(parsed.value));
  }

  /**
    The rendering stage of `tukx gen`, once the options are resolved and
    the command is settled: the environment entries are checked as the
    unit-file template consumes them, the unit file is rendered and given
    its destination, and its here-document sentinel is chosen.
   */
  method Assemble(opts: Options, res: Resolved, command: string,
                  sentinelUuid: string, printable: char -> bool,
                  renderService: ServiceFields -> string)
    returns (r: Result<Script, GenError>)
    ensures r.Err? ==> r.error.BadEnvironment? || r.error.BadSentinel?
    ensures r.Err? && r.error.BadEnvironment? ==>
      exists k | 0 <= k < |opts.environment| ::
        && CheckEntry(opts.environment[k], printable) == Err(r.error.envError)
        && forall j | 0 <= j < k :: CheckEntry(opts.environment[j], printable).Ok?
    ensures r.Err? && r.error.BadSentinel? ==>
      && (forall k | 0 <= k < |opts.environment| :: CheckEntry(opts.environment[k], printable).Ok?)
      && ChooseSentinel(renderService(Fields(opts, res, command)), sentinelUuid) == Err(r.error.sentinelError)
    ensures r.Ok? ==>
      && (forall k | 0 <= k < |opts.environment| :: CheckEntry(opts.environment[k], printable).Ok?)
      && r.value.fields == Fields(opts, res, command)
      && r.value.service == renderService(r.value.fields)
      && r.value.targetPath == TargetPath(opts.systemWide, res.unit)
      && ChooseSentinel(r.value.service, sentinelUuid) == Ok(r.value.sentinel)
      && r.value.systemWide == opts.systemWide
      && r.value.enable == opts.enable
      && r.value.now == opts.now
      && r.value.replace == opts.replace
  {
    var environment, envError := FixEnvList(opts.environment, printable);
    if envError.Some? {
      ghost var k := |environment|;
      assert CheckEntry(opts.environment[k], printable) == Err(envError.value);
      assert forall j | 0 <= j < k :: CheckEntry(opts.environment[j], printable).Ok?;
      return Err(BadEnvironment(envError.value));
    }
    assert environment == opts.environment;

    var fields := ServiceFields(opts.description, res.unit, res.user, res.group,
                                res.workingDirectory, environment, command, opts.restart, opts.install);
    assert fields == Fields(opts, res, command);
    var service := renderService(fields);
    var targetPath := TargetPath(opts.systemWide, res.unit);
    var sentinel := ChooseSentinel(service, sentinelUuid);
    if sentinel.Err? {
      return Err(BadSentinel(sentinel.error));
    }
    r := Ok(Script(fields, service, targetPath, sentinel.value,
                   opts.systemWide, opts.enable, opts.now, opts.replace));
  }

  /**
    `tukx gen` from the options to the script's fields. The errors come in
    the order the source raises them: option conflicts, then the command
    (read after the defaults), then the environment entries (checked as the
    unit-file template consumes them), then the sentinel. An empty command
    is passed on, not rejected. On success the unit file gets the options,
    the defaults of `Resolve`, the entries unchanged and the command with its
    newlines continued.
   */
  method Generate(opts: Options, editorText: string, login: string, cwd: string,
                  unitUuid: string, sentinelUuid: string,
                  printable: char -> bool, firstToken: string -> string,
                  renderService: ServiceFields -> string)
    returns (r: Result<Script, GenError>)
    ensures FirstConflict(opts).Some? ==> r == Err(ConflictingOptions(FirstConflict(opts).value))
    ensures r.Err? && r.error.ConflictingOptions? ==> FirstConflict(opts) == Some(r.error.conflict)
    ensures FirstConflict(opts).None? && ParseCommandInput(editorText, opts.shell, firstToken).Err?
      ==> r == Err(BadCommand(ParseCommandInput(editorText, opts.shell, firstToken).error))
    ensures r.Err? && r.error.BadCommand? ==> !opts.shell && |NonBlankLines(editorText)| > 1
    ensures r.Err? && (r.error.BadEnvironment? || r.error.BadSentinel?) ==>
      Resolve(opts, login, cwd, unitUuid).Ok? && ParseCommandInput(editorText, opts.shell, firstToken).Ok?
    ensures r.Err? && r.error.BadEnvironment? ==>
      exists k | 0 <= k < |opts.environment| ::
        && CheckEntry(opts.environment[k], printable) == Err(r.error.envError)
        && forall j | 0 <= j < k :: CheckEntry(opts.environment[j], printable).Ok?
    ensures r.Err? && r.error.BadSentinel? ==>
      && (forall k | 0 <= k < |opts.environment| :: CheckEntry(opts.environment[k], printable).Ok?)
      && ChooseSentinel(renderService(Fields(opts, Resolve(opts, login, cwd, unitUuid).value,
                                             ContinueLines(ParseCommandInput(editorText, opts.shell, firstToken).value))),
                        sentinelUuid) == Err(r.error.sentinelError)
    ensures r.Ok? ==>
      && Resolve(opts, login, cwd, unitUuid).Ok?
      && ParseCommandInput(editorText, opts.shell, firstToken).Ok?
      && (forall k | 0 <= k < |opts.environment| :: CheckEntry(opts.environment[k], printable).Ok?)
      && r.value.fields == Fields(opts, Resolve(opts, login, cwd, unitUuid).value,
                                  ContinueLines(ParseCommandInput(editorText, opts.shell, firstToken).value))
      && r.value.fields.environment == opts.environment
      && r.value.fields.command == ContinueLines(ParseCommandInput(editorText, opts.shell, firstToken).value)
      && r.value.fields.unit == (if Truthy(opts.unit) then opts.unit.value else TempUnitPrefix + unitUuid)
      && '~' !in r.value.fields.workingDirectory
      && r.value.service == renderService(r.value.fields)
      && r.value.targetPath == TargetPath(opts.systemWide, r.value.fields.unit)
      && ChooseSentinel(r.value.service, sentinelUuid) == Ok(r.value.sentinel)
      && !Contains(r.value.service, r.value.sentinel)
  {
    var resolved := ResolveOptions(opts, login, cwd, unitUuid);
    if resolved.Err? {
      return Err(ConflictingOptions(resolved.error));
    }
    var command := ReadCommand(editorText, opts.shell, firstToken);
    if command.Err? {
      return Err(BadCommand(command.error));
    }
    r := Assemble(opts, resolved.value, command.value,
                  sentinelUuid, printable, renderService);
  }
}

/**
 * The console's request handler: it registers the command names of the
 * extbase command controllers and of every package's Commands.php file,
 * resolves name clashes by the two rules the code has for them, boots the
 * host for the requested command and stores the exit code of the run.
 *
 * The command manager, the package manager, the console application and
 * the run-level sequence are collaborators whose answers arrive as inputs.
 */
module Cli {
  import opened Optional

  const ExceptionCode := 1484486383
  /** Names in package command files that are never registered. */
  const CommandsToIgnore: seq<string> := ["extbase", "_extbase_help", "_core_command"]
  /** The console's own help controller command, never registered from the command manager. */
  const ConsoleHelpCommand := "typo3_console:help:help"
  /** Packages whose path contains this are extensions; their clashing commands get the package key as prefix. */
  const ExtensionDirectory := "typo3conf/ext/"
  const CoreNamespace := "typo3"

  /** An extbase command as the command manager reports it. */
  datatype ControllerCommand = ControllerCommand(commandIdentifier: string, shortestIdentifier: string, isInternal: bool)

  /** One entry of a Commands.php file: the command name and the class of the command. */
  datatype CommandConfig = CommandConfig(name: string, className: string)

  /**
   * An active package. `commands` is None when the package has no
   * Configuration/Commands.php file or the file does not return an array.
   */
  datatype Package = Package(packagePath: string, packageKey: string, commands: Option<seq<CommandConfig>>)

  /** A command added to the console application. */
  datatype ApplicationCommand =
    | ExtbaseCommand(name: string, commandIdentifier: string, hidden: bool)
    | PackageCommand(name: string, className: string)

  /** CommandNameAlreadyInUseException; its code is always ExceptionCode. */
  datatype CommandNameAlreadyInUse = CommandNameAlreadyInUse(commandName: string, registeredBy: string)

  datatype Outcome = Completed | Failed(error: CommandNameAlreadyInUse)

  /** The registered command names in registration order, and the commands added to the application. */
  datatype Registry = Registry(names: seq<string>, added: seq<ApplicationCommand>)

  datatype PassResult = PassResult(registry: Registry, outcome: Outcome)

  /** The exception message. */
  function Message(e: CommandNameAlreadyInUse): string {
    "Command \"" + e.commandName + "\" registered by \"" + e.registeredBy + "\" is already in use"
  }

  predicate DistinctNames(names: seq<string>) {
    forall i, j :: 0 <= i < j < |names| ==> names[i] != names[j]
  }

  /** Each name registered once, and each added command registered under its name, once. */
  predicate ValidRegistry(reg: Registry) {
    && DistinctNames(reg.names)
    && (forall c :: c in reg.added ==> c.name in reg.names)
    && forall i, j :: 0 <= i < j < |reg.added| ==> reg.added[i].name != reg.added[j].name
  }

  /** `explode(':', s)[0]`: everything before the first colon. */
  function FirstSegment(s: string): (r: string)
    ensures r <= s
    ensures ':' !in r
    ensures |r| < |s| ==> s[|r|] == ':'
  {
    if s == [] || s[0] == ':' then [] else [s[0]] + FirstSegment(s[1..])
  }

  predicate OccursAt(haystack: string, needle: string, i: nat) {
    i + |needle| <= |haystack| && haystack[i..i + |needle|] == needle
  }

  /** `strpos($haystack, $needle) !== false`. */
  function Contains(haystack: string, needle: string): (r: bool)
    ensures r <==> exists i: nat :: OccursAt(haystack, needle, i)
  {
    if |haystack| < |needle| then false
    else if haystack[..|needle|] == needle then
      assert OccursAt(haystack, needle, 0);
      true
    else
      var rest := Contains(haystack[1..], needle);
      assert forall i: nat :: OccursAt(haystack[1..], needle, i) <==> OccursAt(haystack, needle, i + 1) by {
        forall i: nat ensures OccursAt(haystack[1..], needle, i) <==> OccursAt(haystack, needle, i + 1) {
          if i + 1 + |needle| <= |haystack| {
            assert haystack[1..][i..i + |needle|] == haystack[i + 1..i + 1 + |needle|];
          }
        }
      }
      assert (exists i: nat :: OccursAt(haystack, needle, i)) ==> exists i: nat :: OccursAt(haystack[1..], needle, i) by {
        if exists i: nat :: OccursAt(haystack, needle, i) {
          var i: nat :| OccursAt(haystack, needle, i);
          assert i != 0;
          assert OccursAt(haystack[1..], needle, i - 1);
        }
      }
      rest
  }

  /** The prefix a clashing package command gets: the package key for extensions, `typo3` otherwise. */
  function CommandNamespace(p: Package): string {
    if Contains(p.packagePath, ExtensionDirectory) then p.packageKey else CoreNamespace
  }

  /** One turn of the loop in registerCommandsFromCommandControllers. */
  function RegisterControllerCommand(reg: Registry, c: ControllerCommand): (r: PassResult)
    ensures c.commandIdentifier == ConsoleHelpCommand ==> r == PassResult(reg, Completed)
    ensures c.commandIdentifier != ConsoleHelpCommand && c.shortestIdentifier !in reg.names ==>
      r == PassResult(Registry(reg.names + [c.shortestIdentifier],
                               reg.added + [ExtbaseCommand(c.shortestIdentifier, c.commandIdentifier, c.isInternal)]), Completed)
    ensures c.commandIdentifier != ConsoleHelpCommand && c.shortestIdentifier in reg.names && c.commandIdentifier !in reg.names ==>
      r == PassResult(Registry(reg.names + [c.commandIdentifier],
                               reg.added + [ExtbaseCommand(c.commandIdentifier, c.commandIdentifier, c.isInternal)]), Completed)
    ensures r.outcome.Failed? <==>
      c.commandIdentifier != ConsoleHelpCommand && c.shortestIdentifier in reg.names && c.commandIdentifier in reg.names
    ensures r.outcome.Failed? ==>
      r == PassResult(reg, Failed(CommandNameAlreadyInUse(c.commandIdentifier, FirstSegment(c.commandIdentifier))))
  {
    if c.commandIdentifier == ConsoleHelpCommand then PassResult(reg, Completed)
    else
      var name := if c.shortestIdentifier in reg.names then c.commandIdentifier else c.shortestIdentifier;
      if name in reg.names then
        PassResult(reg, Failed(CommandNameAlreadyInUse(name, FirstSegment(c.commandIdentifier))))
      else
        PassResult(Registry(reg.names + [name], reg.added + [ExtbaseCommand(name, c.commandIdentifier, c.isInternal)]), Completed)
  }

  /** registerCommandsFromCommandControllers over the commands the manager reports; stops at the first clash. */
  function ControllerPass(reg: Registry, commands: seq<ControllerCommand>): PassResult
    decreases |commands|
  {
    if |commands| == 0 then PassResult(reg, Completed)
    else
      var r := RegisterControllerCommand(reg, commands[0]);
      if r.outcome.Failed? then r else ControllerPass(r.registry, commands[1..])
  }

  /** One turn of the inner loop of populateCommands. */
  function RegisterPackageCommand(reg: Registry, p: Package, c: CommandConfig, isCommandAvailable: string -> bool): (r: PassResult)
    ensures c.name in CommandsToIgnore ==> r == PassResult(reg, Completed)
    ensures c.name !in CommandsToIgnore ==>
      var name := if c.name in reg.names then CommandNamespace(p) + ":" + c.name else c.name;
      && (r.outcome.Failed? <==> name in reg.names)
      && (r.outcome.Failed? ==> r == PassResult(reg, Failed(CommandNameAlreadyInUse(name, p.packageKey))))
      && (r.outcome.Completed? ==>
            && r.registry.names == reg.names + [name]
            && r.registry.added == reg.added + if isCommandAvailable(name) then [PackageCommand(name, c.className)] else [])
  {
    if c.name in CommandsToIgnore then PassResult(reg, Completed)
    else
      var name := if c.name in reg.names then CommandNamespace(p) + ":" + c.name else c.name;
      if name in reg.names then
        PassResult(reg, Failed(CommandNameAlreadyInUse(name, p.packageKey)))
      else
        var added := if isCommandAvailable(name) then reg.added + [PackageCommand(name, c.className)] else reg.added;
        PassResult(Registry(reg.names + [name], added), Completed)
  }

  /** The inner loop of populateCommands over one package's command file. */
  function PackageCommandsPass(reg: Registry, p: Package, commands: seq<CommandConfig>, isCommandAvailable: string -> bool): PassResult
    decreases |commands|
  {
    if |commands| == 0 then PassResult(reg, Completed)
    else
      var r := RegisterPackageCommand(reg, p, commands[0], isCommandAvailable);
      if r.outcome.Failed? then r else PackageCommandsPass(r.registry, p, commands[1..], isCommandAvailable)
  }

  /** The outer loop of populateCommands over the active packages. */
  function PackagesPass(reg: Registry, packages: seq<Package>, isCommandAvailable: string -> bool): PassResult
    decreases |packages|
  {
    if |packages| == 0 then PassResult(reg, Completed)
    else if packages[0].commands.None? then PackagesPass(reg, packages[1..], isCommandAvailable)
    else
      var r := PackageCommandsPass(reg, packages[0], packages[0].commands.value, isCommandAvailable);
      if r.outcome.Failed? then r else PackagesPass(r.registry, packages[1..], isCommandAvailable)
  }

  /** Continues with the remaining packages unless the current one failed. */
  function ThenPackages(r: PassResult, packages: seq<Package>, isCommandAvailable: string -> bool): PassResult {
    if r.outcome.Failed? then r else PackagesPass(r.registry, packages, isCommandAvailable)
  }

  /** populateCommands: the controller commands first, then the package command files. */
  function Populate(reg: Registry, controllerCommands: seq<ControllerCommand>, packages: seq<Package>,
                    isCommandAvailable: string -> bool): PassResult
  {
    ThenPackages(ControllerPass(reg, controllerCommands), packages, isCommandAvailable)
  }

  /** `$input->getFirstArgument() ?: ''`: PHP's `?:` also replaces the falsy string "0". */
  function CommandIdentifier(firstArgument: Option<string>): (r: string)
    ensures r == "" <==> firstArgument.None? || firstArgument.value == "" || firstArgument.value == "0"
    ensures r != "" ==> firstArgument == Some(r)
  {
    match firstArgument
    case None => ""
    case Some(a) => if a == "" || a == "0" then "" else a
  }

  /** What the collaborators of one request answer. */
  datatype Host = Host(
    /** The command manager's commands before booting. */
    controllerCommands: seq<ControllerCommand>,
    /** The commands the command manager reports as new once the host is booted. */
    newControllerCommands: seq<ControllerCommand>,
    packages: seq<Package>,
    /** The application's isCommandAvailable. */
    isCommandAvailable: string -> bool,
    /** The application's hasAllCapabilities after booting. */
    hasAllCapabilities: bool,
    /** Whether the run-level sequence booting the host for the command throws. */
    bootFails: bool,
    /** The exit code the application's run returns. */
    exitCode: int)

  /**
   * How one request ends: a Response stored with the exit code of the run,
   * a CommandNameAlreadyInUseException leaving handleRequest, or an
   * exception from the boot sequence leaving it.
   */
  datatype RequestOutcome =
    | Responded(exitCode: int)
    | Thrown(message: string, code: int)
    | BootFailed

  /** The exception a name clash throws. */
  function Throw(e: CommandNameAlreadyInUse): (r: RequestOutcome)
    ensures r.Thrown? && r.code == ExceptionCode
    ensures r.message == Message(e)
  {
    Thrown(Message(e), ExceptionCode)
  }

  class RequestHandler {
    var registeredCommandNames: seq<string>
    /** The commands added to the console application. */
    var applicationCommands: seq<ApplicationCommand>
    /** The command identifiers the host was booted for, in order (also when the boot threw). */
    var bootedFor: seq<string>
    /** The exit code of the Response stored in the bootstrap, if one was stored. */
    var response: Option<int>

    function Commands(): Registry
      reads this
    {
      Registry(registeredCommandNames, applicationCommands)
    }

    ghost predicate Valid()
      reads this
    {
      ValidRegistry(Commands())
    }

    constructor ()
      ensures Valid()
      ensures registeredCommandNames == [] && applicationCommands == [] && bootedFor == [] && response == None
    {
      registeredCommandNames := [];
      applicationCommands := [];
      bootedFor := [];
      response := None;
    }

    /**
     * Registers every controller command under its shortest identifier, or
     * under its full identifier when the shortest is taken; fails when both are.
     */
    method RegisterCommandsFromCommandControllers(commands: seq<ControllerCommand>) returns (outcome: Outcome)
      requires Valid()
      modifies this`registeredCommandNames, this`applicationCommands
      ensures Valid()
      ensures PassResult(Commands(), outcome) == ControllerPass(old(Commands()), commands)
    {
      for i := 0 to |commands|
        invariant Valid()
        invariant ControllerPass(Commands(), commands[i..]) == ControllerPass(old(Commands()), commands)
      {
        assert commands[i..][1..] == commands[i + 1..];
        var command := commands[i];
        var commandName := command.shortestIdentifier;
        var fullCommandName := command.commandIdentifier;
        if fullCommandName == ConsoleHelpCommand {
          continue;
        }
        if commandName in registeredCommandNames {
          commandName := fullCommandName;
        }
        if commandName in registeredCommandNames {
          return Failed(CommandNameAlreadyInUse(commandName, FirstSegment(fullCommandName)));
        }
        applicationCommands := applicationCommands + [ExtbaseCommand(commandName, fullCommandName, command.isInternal)];
        registeredCommandNames := registeredCommandNames + [commandName];
      }
      return Completed;
    }

    /**
     * The inner loop of populateCommands: registers the commands of one
     * package's command file, prefixing a taken name with the package's
     * namespace; fails when that name is taken too.
     */
    method RegisterPackageCommands(package: Package, commands: seq<CommandConfig>,
                                   isCommandAvailable: string -> bool) returns (outcome: Outcome)
      requires Valid()
      modifies this`registeredCommandNames, this`applicationCommands
      ensures Valid()
      ensures PassResult(Commands(), outcome) == PackageCommandsPass(old(Commands()), package, commands, isCommandAvailable)
    {
      for j := 0 to |commands|
        invariant Valid()
        invariant PackageCommandsPass(Commands(), package, commands[j..], isCommandAvailable)
                  == PackageCommandsPass(old(Commands()), package, commands, isCommandAvailable)
      {
        assert commands[j..][1..] == commands[j + 1..];
        var commandName := commands[j].name;
        if commandName in CommandsToIgnore {
          continue;
        }
        if commandName in registeredCommandNames {
          var prefix := if Contains(package.packagePath, ExtensionDirectory) then package.packageKey else CoreNamespace;
          commandName := prefix + ":" + commandName;
        }
        if commandName in registeredCommandNames {
          return Failed(CommandNameAlreadyInUse(commandName, package.packageKey));
        }
        if isCommandAvailable(commandName) {
          applicationCommands := applicationCommands + [PackageCommand(commandName, commands[j].className)];
        }
        registeredCommandNames := registeredCommandNames + [commandName];
      }
      return Completed;
    }

    /** Registers the controller commands, then the commands of every package's command file. */
    method PopulateCommands(controllerCommands: seq<ControllerCommand>, packages: seq<Package>,
                            isCommandAvailable: string -> bool) returns (outcome: Outcome)
      requires Valid()
      modifies this`registeredCommandNames, this`applicationCommands
      ensures Valid()
      ensures PassResult(Commands(), outcome) == Populate(old(Commands()), controllerCommands, packages, isCommandAvailable)
    {
      outcome := RegisterCommandsFromCommandControllers(controllerCommands);
      if outcome.Failed? {
        return;
      }
      ghost var start := Commands();
      for p := 0 to |packages|
        invariant Valid()
        invariant PackagesPass(Commands(), packages[p..], isCommandAvailable) == PackagesPass(start, packages, isCommandAvailable)
      {
        assert packages[p..][1..] == packages[p + 1..];
        var package := packages[p];
        if package.commands.None? {
          continue;
        }
        outcome := RegisterPackageCommands(package, package.commands.value, isCommandAvailable);
        if outcome.Failed? {
          return;
        }
      }
      return Completed;
    }

    /**
     * handleRequest: populates the commands; when the requested command is
     * available, boots the host for it and, with all capabilities, registers
     * the controller commands that became known; then stores one Response
     * with the exit code of the run. A name clash or a failing boot ends the
     * request before the run, with no Response stored.
     */
    method HandleRequest(firstArgument: Option<string>, host: Host) returns (outcome: RequestOutcome)
      requires Valid()
      modifies this
      ensures Valid()
      ensures var id := CommandIdentifier(firstArgument);
        var populated := Populate(old(Commands()), host.controllerCommands, host.packages, host.isCommandAvailable);
        var boots := host.isCommandAvailable(id);
        && (populated.outcome.Failed? ==>
              && outcome == Throw(populated.outcome.error) && Commands() == populated.registry
              && bootedFor == old(bootedFor))
        && (populated.outcome.Completed? ==>
              && bootedFor == old(bootedFor) + (if boots then [id] else [])
              && (boots && host.bootFails ==> outcome == BootFailed && Commands() == populated.registry)
              && (boots && !host.bootFails && host.hasAllCapabilities ==>
                    var second := ControllerPass(populated.registry, host.newControllerCommands);
                    && Commands() == second.registry
                    && outcome == if second.outcome.Failed? then Throw(second.outcome.error) else Responded(host.exitCode))
              && (!(boots && (host.bootFails || host.hasAllCapabilities)) ==>
                    Commands() == populated.registry && outcome == Responded(host.exitCode)))
      ensures outcome.Responded? ==> outcome.exitCode == host.exitCode && response == Some(host.exitCode)
      ensures !outcome.Responded? ==> response == old(response)
    {
      var commandIdentifier := CommandIdentifier(firstArgument);
      var populated := PopulateCommands(host.controllerCommands, host.packages, host.isCommandAvailable);
      if populated.Failed? {
        return Throw(populated.error);
      }
      if host.isCommandAvailable(commandIdentifier) {
        bootedFor := bootedFor + [commandIdentifier];
        if host.bootFails {
          return BootFailed;
        }
        if host.hasAllCapabilities {
          var second := RegisterCommandsFromCommandControllers(host.newControllerCommands);
          if second.Failed? {
            return Throw(second.error);
          }
        }
      }
      response := Some(host.exitCode);
      return Responded(host.exitCode);
    }
  }
}

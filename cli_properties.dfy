/**
 * Properties of command registration: the registry only grows, every name
 * is registered once, skipped names are skipped, every command that should
 * be registered is, nothing unlisted is, and a clash names a command that
 * is already registered.
 */
module CliProperties {
  import opened Optional
  import opened Cli

  /** `after` keeps everything `before` registered, in the same order. */
  predicate Extends(before: Registry, after: Registry) {
    before.names <= after.names && before.added <= after.added
  }

  lemma PrefixMembership<T>(x: T, a: seq<T>, b: seq<T>)
    requires x in a && a <= b
    ensures x in b
  {
    var i :| 0 <= i < |a| && a[i] == x;
    assert b[i] == x;
  }

  lemma ExtendsMembership(before: Registry, after: Registry)
    requires Extends(before, after)
    ensures forall n :: n in before.names ==> n in after.names
    ensures forall a :: a in before.added ==> a in after.added
  {
    forall n | n in before.names ensures n in after.names { PrefixMembership(n, before.names, after.names); }
    forall a | a in before.added ensures a in after.added { PrefixMembership(a, before.added, after.added); }
  }

  // ---------------------------------------------------------------------
  // registerCommandsFromCommandControllers

  /** Registration never removes or reorders a name or a command, also when it fails. */
  lemma {:induction false} ControllerPassGrows(reg: Registry, commands: seq<ControllerCommand>)
    ensures Extends(reg, ControllerPass(reg, commands).registry)
    decreases |commands|
  {
    if |commands| > 0 {
      var r := RegisterControllerCommand(reg, commands[0]);
      if r.outcome.Completed? {
        ControllerPassGrows(r.registry, commands[1..]);
      }
    }
  }

  /** Registration keeps every name registered once. */
  lemma {:induction false} ControllerPassValid(reg: Registry, commands: seq<ControllerCommand>)
    requires ValidRegistry(reg)
    ensures ValidRegistry(ControllerPass(reg, commands).registry)
    decreases |commands|
  {
    if |commands| > 0 {
      var r := RegisterControllerCommand(reg, commands[0]);
      if r.outcome.Completed? {
        ControllerPassValid(r.registry, commands[1..]);
      }
    }
  }

  function WithoutHelp(commands: seq<ControllerCommand>): (r: seq<ControllerCommand>)
    ensures forall c :: c in r <==> c in commands && c.commandIdentifier != ConsoleHelpCommand
    decreases |commands|
  {
    if |commands| == 0 then []
    else
      assert forall c :: c in commands <==> c == commands[0] || c in commands[1..];
      (if commands[0].commandIdentifier == ConsoleHelpCommand then [] else [commands[0]]) + WithoutHelp(commands[1..])
  }

  /** The console's own help command is passed over wherever it appears. */
  lemma {:induction false} ControllerPassSkipsHelp(reg: Registry, commands: seq<ControllerCommand>)
    ensures ControllerPass(reg, commands) == ControllerPass(reg, WithoutHelp(commands))
    decreases |commands|
  {
    if |commands| > 0 {
      var rest := WithoutHelp(commands[1..]);
      if commands[0].commandIdentifier == ConsoleHelpCommand {
        assert WithoutHelp(commands) == rest;
        ControllerPassSkipsHelp(reg, commands[1..]);
      } else {
        var w := WithoutHelp(commands);
        assert w == [commands[0]] + rest;
        assert w[0] == commands[0] && w[1..] == rest;
        var r := RegisterControllerCommand(reg, commands[0]);
        if r.outcome.Completed? {
          ControllerPassSkipsHelp(r.registry, commands[1..]);
        }
      }
    }
  }

  /** The command `a` comes from a listed controller command, under its shortest or its full identifier. */
  ghost predicate FromController(a: ApplicationCommand, commands: seq<ControllerCommand>) {
    exists c :: c in commands && c.commandIdentifier != ConsoleHelpCommand && a.ExtbaseCommand?
      && a.commandIdentifier == c.commandIdentifier && a.hidden == c.isInternal
      && (a.name == c.shortestIdentifier || a.name == c.commandIdentifier)
  }

  /**
   * A completed pass adds every listed command except the help command,
   * hidden exactly when it is internal, and its shortest identifier is
   * registered afterwards (by it or by an earlier command).
   */
  lemma {:induction false} ControllerPassRegistersAll(reg: Registry, commands: seq<ControllerCommand>)
    requires ControllerPass(reg, commands).outcome.Completed?
    ensures var r := ControllerPass(reg, commands).registry;
      forall c :: c in commands && c.commandIdentifier != ConsoleHelpCommand ==>
        && c.shortestIdentifier in r.names
        && exists a :: a in r.added && a.ExtbaseCommand? && a.commandIdentifier == c.commandIdentifier && a.hidden == c.isInternal
    decreases |commands|
  {
    if |commands| > 0 {
      var c0 := commands[0];
      var r1 := RegisterControllerCommand(reg, c0);
      var r := ControllerPass(reg, commands).registry;
      assert r == ControllerPass(r1.registry, commands[1..]).registry;
      ControllerPassRegistersAll(r1.registry, commands[1..]);
      ControllerPassGrows(r1.registry, commands[1..]);
      ExtendsMembership(r1.registry, r);
      if c0.commandIdentifier != ConsoleHelpCommand {
        var a := r1.registry.added[|r1.registry.added| - 1];
        assert a in r1.registry.added && a.commandIdentifier == c0.commandIdentifier && a.hidden == c0.isInternal;
        assert c0.shortestIdentifier in r1.registry.names;
      }
      forall c | c in commands && c.commandIdentifier != ConsoleHelpCommand
        ensures c == c0 || c in commands[1..]
      {
      }
    }
  }

  /** Everything a pass adds comes from a listed command other than the help command. */
  lemma {:induction false} ControllerPassAddsOnlyListed(reg: Registry, commands: seq<ControllerCommand>)
    ensures var r := ControllerPass(reg, commands).registry;
      forall a :: a in r.added ==> a in reg.added || FromController(a, commands)
    decreases |commands|
  {
    if |commands| > 0 {
      var c0 := commands[0];
      var r1 := RegisterControllerCommand(reg, c0);
      if r1.outcome.Completed? {
        var r := ControllerPass(r1.registry, commands[1..]).registry;
        ControllerPassAddsOnlyListed(r1.registry, commands[1..]);
        forall a | a in r.added ensures a in reg.added || FromController(a, commands) {
          if a !in r1.registry.added {
            var c :| c in commands[1..] && c.commandIdentifier != ConsoleHelpCommand && a.ExtbaseCommand?
              && a.commandIdentifier == c.commandIdentifier && a.hidden == c.isInternal
              && (a.name == c.shortestIdentifier || a.name == c.commandIdentifier);
            assert c in commands;
          } else if a !in reg.added {
            assert a == r1.registry.added[|reg.added|];
            assert c0 in commands;
          }
        }
      }
    }
  }

  /**
   * A command whose shortest identifier was already taken at its turn is
   * registered under its full identifier by a completed pass.
   */
  lemma {:induction false} ControllerPassFallsBack(reg: Registry, commands: seq<ControllerCommand>, i: nat)
    requires i < |commands| && commands[i].commandIdentifier != ConsoleHelpCommand
    requires ControllerPass(reg, commands).outcome.Completed?
    requires commands[i].shortestIdentifier in ControllerPass(reg, commands[..i]).registry.names
    ensures var r := ControllerPass(reg, commands).registry;
      commands[i].commandIdentifier in r.names &&
      ExtbaseCommand(commands[i].commandIdentifier, commands[i].commandIdentifier, commands[i].isInternal) in r.added
    decreases i
  {
    var r1 := RegisterControllerCommand(reg, commands[0]);
    var r := ControllerPass(reg, commands).registry;
    assert r == ControllerPass(r1.registry, commands[1..]).registry;
    if i == 0 {
      assert commands[..0] == [];
      ControllerPassGrows(r1.registry, commands[1..]);
      ExtendsMembership(r1.registry, r);
      assert r1.registry.added[|r1.registry.added| - 1] ==
        ExtbaseCommand(commands[0].commandIdentifier, commands[0].commandIdentifier, commands[0].isInternal);
    } else {
      var prefix := commands[..i];
      assert prefix[0] == commands[0] && prefix[1..] == commands[1..][..i - 1];
      assert ControllerPass(reg, prefix).registry == ControllerPass(r1.registry, commands[1..][..i - 1]).registry;
      assert commands[1..][i - 1] == commands[i];
      ControllerPassFallsBack(r1.registry, commands[1..], i - 1);
    }
  }

  /**
   * A clash is reported for a listed command whose shortest and full
   * identifiers are both registered, naming the full identifier and its
   * first segment as the one that registered it.
   */
  lemma {:induction false} ControllerPassFailure(reg: Registry, commands: seq<ControllerCommand>)
    ensures var r := ControllerPass(reg, commands);
      r.outcome.Failed? ==>
        exists c :: c in commands && c.commandIdentifier != ConsoleHelpCommand
          && c.shortestIdentifier in r.registry.names && c.commandIdentifier in r.registry.names
          && r.outcome.error == CommandNameAlreadyInUse(c.commandIdentifier, FirstSegment(c.commandIdentifier))
    decreases |commands|
  {
    if |commands| > 0 {
      var r1 := RegisterControllerCommand(reg, commands[0]);
      if r1.outcome.Failed? {
        assert commands[0] in commands;
      } else {
        ControllerPassFailure(r1.registry, commands[1..]);
        var r := ControllerPass(r1.registry, commands[1..]);
        if r.outcome.Failed? {
          var c :| c in commands[1..] && c.commandIdentifier != ConsoleHelpCommand
            && c.shortestIdentifier in r.registry.names && c.commandIdentifier in r.registry.names
            && r.outcome.error == CommandNameAlreadyInUse(c.commandIdentifier, FirstSegment(c.commandIdentifier));
          assert c in commands;
        }
      }
    }
  }

  // ---------------------------------------------------------------------
  // populateCommands

  lemma {:induction false} PackageCommandsPassGrows(reg: Registry, p: Package, commands: seq<CommandConfig>, avail: string -> bool)
    ensures Extends(reg, PackageCommandsPass(reg, p, commands, avail).registry)
    decreases |commands|
  {
    if |commands| > 0 {
      var r := RegisterPackageCommand(reg, p, commands[0], avail);
      if r.outcome.Completed? {
        PackageCommandsPassGrows(r.registry, p, commands[1..], avail);
      }
    }
  }

  /** Registering the package command files never removes or reorders a name or a command, also when it fails. */
  lemma {:induction false} PackagesPassGrows(reg: Registry, packages: seq<Package>, avail: string -> bool)
    ensures Extends(reg, PackagesPass(reg, packages, avail).registry)
    decreases |packages|
  {
    if |packages| > 0 {
      if packages[0].commands.None? {
        PackagesPassGrows(reg, packages[1..], avail);
      } else {
        var r := PackageCommandsPass(reg, packages[0], packages[0].commands.value, avail);
        PackageCommandsPassGrows(reg, packages[0], packages[0].commands.value, avail);
        if r.outcome.Completed? {
          PackagesPassGrows(r.registry, packages[1..], avail);
        }
      }
    }
  }

  lemma {:induction false} PackageCommandsPassValid(reg: Registry, p: Package, commands: seq<CommandConfig>, avail: string -> bool)
    requires ValidRegistry(reg)
    ensures ValidRegistry(PackageCommandsPass(reg, p, commands, avail).registry)
    decreases |commands|
  {
    if |commands| > 0 {
      var r := RegisterPackageCommand(reg, p, commands[0], avail);
      if r.outcome.Completed? {
        PackageCommandsPassValid(r.registry, p, commands[1..], avail);
      }
    }
  }

  /** Registering the package command files keeps every name registered once. */
  lemma {:induction false} PackagesPassValid(reg: Registry, packages: seq<Package>, avail: string -> bool)
    requires ValidRegistry(reg)
    ensures ValidRegistry(PackagesPass(reg, packages, avail).registry)
    decreases |packages|
  {
    if |packages| > 0 {
      if packages[0].commands.None? {
        PackagesPassValid(reg, packages[1..], avail);
      } else {
        var r := PackageCommandsPass(reg, packages[0], packages[0].commands.value, avail);
        PackageCommandsPassValid(reg, packages[0], packages[0].commands.value, avail);
        if r.outcome.Completed? {
          PackagesPassValid(r.registry, packages[1..], avail);
        }
      }
    }
  }

  function WithoutIgnored(commands: seq<CommandConfig>): (r: seq<CommandConfig>)
    ensures forall c :: c in r <==> c in commands && c.name !in CommandsToIgnore
    decreases |commands|
  {
    if |commands| == 0 then []
    else
      assert forall c :: c in commands <==> c == commands[0] || c in commands[1..];
      (if commands[0].name in CommandsToIgnore then [] else [commands[0]]) + WithoutIgnored(commands[1..])
  }

  /** The names `extbase`, `_extbase_help` and `_core_command` in a command file are passed over. */
  lemma {:induction false} PackageCommandsPassSkipsIgnored(reg: Registry, p: Package, commands: seq<CommandConfig>, avail: string -> bool)
    ensures PackageCommandsPass(reg, p, commands, avail) == PackageCommandsPass(reg, p, WithoutIgnored(commands), avail)
    decreases |commands|
  {
    if |commands| > 0 {
      var rest := WithoutIgnored(commands[1..]);
      if commands[0].name in CommandsToIgnore {
        assert WithoutIgnored(commands) == rest;
        PackageCommandsPassSkipsIgnored(reg, p, commands[1..], avail);
      } else {
        var w := WithoutIgnored(commands);
        assert w == [commands[0]] + rest;
        assert w[0] == commands[0] && w[1..] == rest;
        var r := RegisterPackageCommand(reg, p, commands[0], avail);
        if r.outcome.Completed? {
          PackageCommandsPassSkipsIgnored(r.registry, p, commands[1..], avail);
        }
      }
    }
  }

  /** After a completed file, every name in it that is not ignored is registered (by it or earlier). */
  lemma {:induction false} PackageCommandsPassRegistersAll(reg: Registry, p: Package, commands: seq<CommandConfig>, avail: string -> bool)
    requires PackageCommandsPass(reg, p, commands, avail).outcome.Completed?
    ensures var r := PackageCommandsPass(reg, p, commands, avail).registry;
      forall c :: c in commands && c.name !in CommandsToIgnore ==> c.name in r.names
    decreases |commands|
  {
    if |commands| > 0 {
      var r1 := RegisterPackageCommand(reg, p, commands[0], avail);
      var r := PackageCommandsPass(reg, p, commands, avail).registry;
      PackageCommandsPassRegistersAll(r1.registry, p, commands[1..], avail);
      PackageCommandsPassGrows(r1.registry, p, commands[1..], avail);
      ExtendsMembership(r1.registry, r);
      forall c | c in commands && c.name !in CommandsToIgnore ensures c.name in r.names {
        if c == commands[0] {
          assert c.name in r1.registry.names;
        } else {
          assert c in commands[1..];
        }
      }
    }
  }

  /**
   * A command whose name was already taken at its turn is registered by a
   * completed file under the name prefixed with its package's namespace.
   */
  lemma {:induction false} PackageCommandsPassNamespaces(reg: Registry, p: Package, commands: seq<CommandConfig>, avail: string -> bool, i: nat)
    requires i < |commands| && commands[i].name !in CommandsToIgnore
    requires PackageCommandsPass(reg, p, commands, avail).outcome.Completed?
    requires commands[i].name in PackageCommandsPass(reg, p, commands[..i], avail).registry.names
    ensures CommandNamespace(p) + ":" + commands[i].name in PackageCommandsPass(reg, p, commands, avail).registry.names
    decreases i
  {
    var r1 := RegisterPackageCommand(reg, p, commands[0], avail);
    var r := PackageCommandsPass(reg, p, commands, avail).registry;
    assert r == PackageCommandsPass(r1.registry, p, commands[1..], avail).registry;
    if i == 0 {
      assert commands[..0] == [];
      PackageCommandsPassGrows(r1.registry, p, commands[1..], avail);
      ExtendsMembership(r1.registry, r);
    } else {
      var prefix := commands[..i];
      assert prefix[0] == commands[0] && prefix[1..] == commands[1..][..i - 1];
      assert PackageCommandsPass(reg, p, prefix, avail).registry == PackageCommandsPass(r1.registry, p, commands[1..][..i - 1], avail).registry;
      assert commands[1..][i - 1] == commands[i];
      PackageCommandsPassNamespaces(r1.registry, p, commands[1..], avail, i - 1);
    }
  }

  /**
   * After every package file is registered, each name listed in a file
   * that is not ignored is registered.
   */
  lemma {:induction false} PackagesPassRegistersAll(reg: Registry, packages: seq<Package>, avail: string -> bool)
    requires PackagesPass(reg, packages, avail).outcome.Completed?
    ensures var r := PackagesPass(reg, packages, avail).registry;
      forall p, c :: p in packages && p.commands.Some? && c in p.commands.value && c.name !in CommandsToIgnore ==> c.name in r.names
    decreases |packages|
  {
    if |packages| > 0 {
      var p0 := packages[0];
      var r := PackagesPass(reg, packages, avail).registry;
      var r1 := if p0.commands.None? then PassResult(reg, Completed) else PackageCommandsPass(reg, p0, p0.commands.value, avail);
      assert r == PackagesPass(r1.registry, packages[1..], avail).registry;
      PackagesPassRegistersAll(r1.registry, packages[1..], avail);
      PackagesPassGrows(r1.registry, packages[1..], avail);
      ExtendsMembership(r1.registry, r);
      if p0.commands.Some? {
        PackageCommandsPassRegistersAll(reg, p0, p0.commands.value, avail);
      }
      forall p, c | p in packages && p.commands.Some? && c in p.commands.value && c.name !in CommandsToIgnore
        ensures c.name in r.names
      {
        if p != p0 {
          assert p in packages[1..];
        }
      }
    }
  }

  /** `n` is the name a package lists, possibly prefixed by the package's namespace. */
  ghost predicate FromPackageFile(n: string, packages: seq<Package>) {
    exists p, c :: p in packages && p.commands.Some? && c in p.commands.value && c.name !in CommandsToIgnore
      && (n == c.name || n == CommandNamespace(p) + ":" + c.name)
  }

  lemma {:induction false} PackageCommandsPassNames(reg: Registry, p: Package, commands: seq<CommandConfig>, avail: string -> bool)
    ensures var r := PackageCommandsPass(reg, p, commands, avail).registry;
      && (forall n :: n in r.names ==>
            n in reg.names || exists c :: c in commands && c.name !in CommandsToIgnore && (n == c.name || n == CommandNamespace(p) + ":" + c.name))
      && (forall a :: a in r.added ==> a in reg.added || (a.PackageCommand? && a.name in r.names && avail(a.name)))
    decreases |commands|
  {
    if |commands| > 0 {
      var c0 := commands[0];
      var r1 := RegisterPackageCommand(reg, p, c0, avail);
      if r1.outcome.Completed? {
        var r := PackageCommandsPass(r1.registry, p, commands[1..], avail).registry;
        PackageCommandsPassNames(r1.registry, p, commands[1..], avail);
        PackageCommandsPassGrows(r1.registry, p, commands[1..], avail);
        ExtendsMembership(r1.registry, r);
        forall n | n in r.names
          ensures n in reg.names ||
            exists c :: c in commands && c.name !in CommandsToIgnore && (n == c.name || n == CommandNamespace(p) + ":" + c.name)
        {
          if n !in r1.registry.names {
            var c :| c in commands[1..] && c.name !in CommandsToIgnore && (n == c.name || n == CommandNamespace(p) + ":" + c.name);
            assert c in commands;
          } else if n !in reg.names {
            assert c0 in commands;
          }
        }
      }
    }
  }

  /**
   * Every name the package files add is a listed name or its namespaced
   * form, and every command they add is registered and available.
   */
  lemma {:induction false} PackagesPassNames(reg: Registry, packages: seq<Package>, avail: string -> bool)
    ensures var r := PackagesPass(reg, packages, avail).registry;
      && (forall n :: n in r.names ==> n in reg.names || FromPackageFile(n, packages))
      && (forall a :: a in r.added ==> a in reg.added || (a.PackageCommand? && a.name in r.names && avail(a.name)))
    decreases |packages|
  {
    if |packages| > 0 {
      var p0 := packages[0];
      var r1 := if p0.commands.None? then PassResult(reg, Completed) else PackageCommandsPass(reg, p0, p0.commands.value, avail);
      if r1.outcome.Completed? {
        var r := PackagesPass(r1.registry, packages[1..], avail).registry;
        assert r == PackagesPass(reg, packages, avail).registry;
        PackagesPassNames(r1.registry, packages[1..], avail);
        PackagesPassGrows(r1.registry, packages[1..], avail);
        ExtendsMembership(r1.registry, r);
        if p0.commands.Some? {
          PackageCommandsPassNames(reg, p0, p0.commands.value, avail);
        }
        forall n | n in r.names ensures n in reg.names || FromPackageFile(n, packages) {
          if n !in r1.registry.names {
            var p, c :| p in packages[1..] && p.commands.Some? && c in p.commands.value && c.name !in CommandsToIgnore
              && (n == c.name || n == CommandNamespace(p) + ":" + c.name);
            assert p in packages;
          } else if n !in reg.names {
            var c :| c in p0.commands.value && c.name !in CommandsToIgnore && (n == c.name || n == CommandNamespace(p0) + ":" + c.name);
            assert p0 in packages;
          }
        }
      } else {
        PackageCommandsPassNames(reg, p0, p0.commands.value, avail);
        var r := r1.registry;
        forall n | n in r.names ensures n in reg.names || FromPackageFile(n, packages) {
          if n !in reg.names {
            var c :| c in p0.commands.value && c.name !in CommandsToIgnore && (n == c.name || n == CommandNamespace(p0) + ":" + c.name);
            assert p0 in packages;
          }
        }
      }
    }
  }

  /** A clash in a command file names an already registered name and the key of a listed package. */
  lemma {:induction false} PackagesPassFailure(reg: Registry, packages: seq<Package>, avail: string -> bool)
    ensures var r := PackagesPass(reg, packages, avail);
      r.outcome.Failed? ==>
        && r.outcome.error.commandName in r.registry.names
        && exists p :: p in packages && p.packageKey == r.outcome.error.registeredBy
    decreases |packages|
  {
    if |packages| > 0 {
      var p0 := packages[0];
      if p0.commands.None? {
        PackagesPassFailure(reg, packages[1..], avail);
        var r := PackagesPass(reg, packages, avail);
        if r.outcome.Failed? {
          var p :| p in packages[1..] && p.packageKey == r.outcome.error.registeredBy;
          assert p in packages;
        }
      } else {
        var r1 := PackageCommandsPass(reg, p0, p0.commands.value, avail);
        if r1.outcome.Failed? {
          PackageCommandsPassFailure(reg, p0, p0.commands.value, avail);
          assert p0 in packages;
        } else {
          PackagesPassFailure(r1.registry, packages[1..], avail);
          var r := PackagesPass(r1.registry, packages[1..], avail);
          if r.outcome.Failed? {
            var p :| p in packages[1..] && p.packageKey == r.outcome.error.registeredBy;
            assert p in packages;
          }
        }
      }
    }
  }

  lemma {:induction false} PackageCommandsPassFailure(reg: Registry, p: Package, commands: seq<CommandConfig>, avail: string -> bool)
    ensures var r := PackageCommandsPass(reg, p, commands, avail);
      r.outcome.Failed? ==> r.outcome.error.commandName in r.registry.names && r.outcome.error.registeredBy == p.packageKey
    decreases |commands|
  {
    if |commands| > 0 {
      var r := RegisterPackageCommand(reg, p, commands[0], avail);
      if r.outcome.Completed? {
        PackageCommandsPassFailure(r.registry, p, commands[1..], avail);
      }
    }
  }

  /**
   * populateCommands registers the controller commands before any package
   * command, and does not look at the package files once a controller
   * command clashed.
   */
  lemma PopulateControllersFirst(reg: Registry, controllerCommands: seq<ControllerCommand>, packages: seq<Package>, avail: string -> bool)
    ensures var c := ControllerPass(reg, controllerCommands);
      && Extends(c.registry, Populate(reg, controllerCommands, packages, avail).registry)
      && (c.outcome.Failed? ==> Populate(reg, controllerCommands, packages, avail) == c)
  {
    var c := ControllerPass(reg, controllerCommands);
    if c.outcome.Completed? {
      PackagesPassGrows(c.registry, packages, avail);
    }
  }

  /** populateCommands keeps every name registered once. */
  lemma PopulateValid(reg: Registry, controllerCommands: seq<ControllerCommand>, packages: seq<Package>, avail: string -> bool)
    requires ValidRegistry(reg)
    ensures ValidRegistry(Populate(reg, controllerCommands, packages, avail).registry)
  {
    ControllerPassValid(reg, controllerCommands);
    var c := ControllerPass(reg, controllerCommands);
    if c.outcome.Completed? {
      PackagesPassValid(c.registry, packages, avail);
    }
  }
}

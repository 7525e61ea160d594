# typo3_console: command registry and early cache bookkeeping

This project models two pieces of the TYPO3 Console's command-line front end
and proves what they guarantee.

**Command registry.** The console's request handler builds the list of command
names it accepts. It does this in two passes:

- It registers the commands of the extbase command controllers. Each command
  is tried under its shortest identifier first, then under its full
  identifier.
- It registers the commands listed in every active package's
  `Configuration/Commands.php`. Three names are always skipped: `extbase`,
  `_extbase_help` and `_core_command`. A name that is already taken gets a
  prefix: `<packageKey>:` for packages whose path contains `typo3conf/ext/`,
  and `typo3:` for every other package.

If the chosen name is still taken, registration stops with
`CommandNameAlreadyInUseException`, code 1484486383. The two passes have
different fallback rules, and the model keeps them apart.

`handleRequest` then does the following:

1. It populates the registry.
2. If the requested command is available, it boots the host for that command.
3. With all capabilities after booting, it registers the controller commands
   that became known.
4. It runs the application and stores a Response with the exit code.

A name clash, or an exception from the boot sequence, ends the request
before the run, and no Response is stored.

The model is a class, `Cli.RequestHandler`. Its fields are the registered
names in order, the commands added to the application, the commands the host
was booted for, and the stored response. Its three registration methods,
`RegisterCommandsFromCommandControllers`, `RegisterPackageCommands` and
`PopulateCommands`, are proved loop by loop against fold functions
(`ControllerPass`, `PackageCommandsPass`, `PackagesPass`, `Populate`). `HandleRequest` has no loop; its contract states its outcome in
terms of those folds. The properties of the folds are proved in
`CliProperties`.

The model follows the array semantics of PHP 7.1 to 7.4: `false` is turned
into an array when a key is written into it, an empty string is not, reading
an unset key gives null with a notice, and `$a[] =` never picks a negative
key. Older PHP versions differ on the empty string; see "Left out".

**Early cache configuration.** While the object management boots, the boot
scripts do the following:

- **Disable** (`disableCachesForObjectManagement`). For each of five extbase
  caches that is set, the configuration is saved in `$earlyCachesConfiguration`.
  The cache is then switched to `FakeDatabaseBackend` (when its backend was
  empty or the database backend) or to `NullBackend`, and its options are
  cleared.
- **Save `cache_core`** (`disableCoreCaches`).
- **Re-enable** (`reEnableOriginalCoreCaches`). The saved copies are merged
  back with `array_replace_recursive`, and the cache manager's caches are
  emptied.

The scripts also:

- filter two core command controllers out of the registered controllers;
- replace an unset or empty `commandControllers` or `typeConverters` setting
  with an empty array (a non-empty value is kept as it is);
- append the console's array converter;
- point two object class names at the console's own implementations.

The static class and the global configuration array it writes are modelled
as one class, `Booting.Scripts`. Its fields are the configuration paths those
scripts touch.

PHP arrays are ordered maps (module `PhpArrays`). An array is a sequence of
key/value entries. Writing an existing key replaces its value in place;
writing a new key appends it. `array_replace_recursive` is defined entry by
entry, as PHP performs it. It is proved equal, key by key, to the reference
`MergedLookup`.

What the round trip proves, and what it shows: merging the saved copy back
restores every key the original configuration had. Keys the original lacked
keep the values the disable wrote. So a cache configured without a `backend`
key keeps `FakeDatabaseBackend` after re-enabling (`RoundTripKeepsFakeBackend`).

## Model

| member | source | states |
|---|---|---|
| PhpArrays.Lookup | Classes/Core/Booting/Scripts.php:85 | reading a key finds a value exactly when the key is present, and it is the value of the first entry under that key |
| PhpArrays.Put | Classes/Core/Booting/Scripts.php:88-94 | writing a key makes it read back the written value and leaves every other key as it was. A present key keeps its position; a new key is appended. Distinct keys and well-formedness are kept |
| PhpArrays.IsSet | Classes/Core/Booting/Scripts.php:85 | no contract of its own (a predicate): `isset` holds for a present value other than null |
| PhpArrays.Empty | Classes/Core/Booting/Scripts.php:89 | no contract of its own (a predicate): `empty`, as also used at lines 48 and 265, holds for unset, null, false, 0, "", "0" and the empty array |
| PhpArrays.ReplaceRecursive | Classes/Core/Booting/Scripts.php:127 | no contract of its own: `array_replace_recursive`; its properties are the rows `LookupReplaceRecursive`, `ReplaceRecursiveSelf`, `ReplaceRecursiveIntoEmpty` and `ReplaceRecursiveWellFormed` |
| PhpArrays.ReplaceFrom | Classes/Core/Booting/Scripts.php:127 | no contract of its own: the merge from the i-th replacement entry on; its properties are stated for `ReplaceRecursive` |
| PhpArrays.ReplaceEntry | Classes/Core/Booting/Scripts.php:127 | no contract of its own: one entry of the merge, written in place or merged recursively when both sides hold arrays |
| PhpArrays.NextIndex | Classes/Core/Booting/Scripts.php:268 | the key `$a[] =` uses is not negative, exceeds every integer key, and is 0 or one past an existing integer key |
| PhpArrays.Append | Classes/Core/Booting/Scripts.php:268 | `$a[] = v` adds exactly one entry at the end, under the next index |
| PhpArrays.LookupReplaceEntry | Classes/Core/Booting/Scripts.php:127 | one step of the merge changes only the key it writes, which then holds the replacement value or the recursive merge of both arrays |
| PhpArrays.LookupReplaceRecursive | Classes/Core/Booting/Scripts.php:127 | key by key, `array_replace_recursive` keeps the base where the replacement lacks the key, takes the replacement's value otherwise, and merges recursively where both hold arrays |
| PhpArrays.ReplaceRecursiveSelf | Classes/Core/Booting/Scripts.php:127 | merging a well-formed array into itself returns it unchanged |
| PhpArrays.ReplaceRecursiveIntoEmpty | Classes/Core/Booting/Scripts.php:127 | merging into an empty array copies the replacement, order included |
| PhpArrays.ReplaceRecursiveWellFormed | Classes/Core/Booting/Scripts.php:127 | the merge of well-formed arrays has distinct keys at every depth |
| Booting.WritableArray | Classes/Core/Booting/Scripts.php:89-94 | writing a key into a cache entry starts from the entry itself when it is an array, and from an empty array when it is unset, null or false; any other scalar cannot be written into |
| Booting.DisabledBackend | Classes/Core/Booting/Scripts.php:89-93 | the fake database backend is chosen exactly when the backend is empty or the database backend; otherwise the null backend |
| Booting.DisabledEntry | Classes/Core/Booting/Scripts.php:89-94 | the disabled entry has the chosen backend and empty options. Every other key is unchanged and well-formedness is kept |
| Booting.DisableCache | Classes/Core/Booting/Scripts.php:85-94 | no contract of its own: one turn of the disable loop; its effect is the row `DisableCacheEffect` |
| Booting.DisableCaches | Classes/Core/Booting/Scripts.php:77-95 | no contract of its own: the disable loop; its properties are the `BootingProperties.DisableCaches…` rows |
| Booting.DisableCacheEffect | Classes/Core/Booting/Scripts.php:85-94 | an unset id is skipped. A set one is saved as it was and then disabled, or it stops the loop when it is a scalar PHP cannot write a key into. No other id changes |
| Booting.SaveCoreCache | Classes/Core/Booting/Scripts.php:115 | the saved `cache_core` copy equals the current entry (null when unset); the configurations and the other saved ids are unchanged |
| Booting.Overridden | Classes/Core/Booting/Scripts.php:185 | no contract of its own (a predicate): the value is strictly one of the two overridden controller class names |
| Booting.FilterOverridden | Classes/Core/Booting/Scripts.php:184-186 | an entry is kept exactly when it is not strictly one of the two overridden controller class names |
| Booting.EnsureArray | Classes/Core/Booting/Scripts.php:48-50 | an empty or unset setting becomes an empty array; any other value is kept |
| Booting.AddArrayConverter | Classes/Core/Booting/Scripts.php:265-268 | the array converter becomes the last entry, after the original converters (none when the setting was empty) |
| Booting.OverrideObject | Classes/Core/Booting/Scripts.php:280 | the original class's object entry gets the override as `className`. Its other keys and all other objects are unchanged |
| Booting.Scripts.constructor | Classes/Core/Booting/Scripts.php:39 | the saved early configuration starts empty |
| Booting.Scripts.InitializeConfigurationManagement | Classes/Core/Booting/Scripts.php:48-71 | command controllers become an array when empty; then the object-management caches are disabled |
| Booting.Scripts.DisableCachesForObjectManagement | Classes/Core/Booting/Scripts.php:74-96 | the loop's new state and outcome are those of `DisableCaches` over the five ids, and both arrays stay well formed |
| Booting.Scripts.DisableCoreCaches | Classes/Core/Booting/Scripts.php:112-117 | `cache_core` is saved and the host's core cache is switched off |
| Booting.Scripts.ReEnableOriginalCoreCaches | Classes/Core/Booting/Scripts.php:125-137 | the configurations become the recursive merge of the saved copies over them. The cache manager gets them and holds no caches |
| Booting.Scripts.FilterOverriddenCoreCommandControllers | Classes/Core/Booting/Scripts.php:182-187 | the registered command controllers become the filtered list |
| Booting.Scripts.ProvideCleanClassImplementations | Classes/Core/Booting/Scripts.php:263-268 | both class overrides are written and the array converter is appended |
| Booting.Scripts.OverrideImplementation | Classes/Core/Booting/Scripts.php:277-282 | the object configuration gets the override class name |
| BootingProperties.DisableCachesLeavesOthers | Classes/Core/Booting/Scripts.php:77-87 | an id that is not listed, or not set, keeps both its configuration and its saved copy |
| BootingProperties.DisableCachesDone | Classes/Core/Booting/Scripts.php:77-94 | the loop completes exactly when every listed cache that is set can be written into |
| BootingProperties.DisableCachesFailure | Classes/Core/Booting/Scripts.php:89-94 | a failure names a listed, set cache that holds an unwritable scalar |
| BootingProperties.DisableCachesSavesAndDisables | Classes/Core/Booting/Scripts.php:85-94 | every listed cache that was set is saved exactly as it was and holds its disabled form afterwards |
| BootingProperties.DisableCachesWellFormed | Classes/Core/Booting/Scripts.php:74-96 | the disable loop keeps both arrays well formed |
| BootingProperties.ObjectManagementCacheIdsDistinct | Classes/Core/Booting/Scripts.php:77-84 | the five cache ids are distinct |
| BootingProperties.ObjectManagementRoundTrip | Classes/Core/Booting/Scripts.php:74-96 | when every set object-management cache can be written into, disabling the five caches and then merging the saved copies back, as `ReEnableOriginalCoreCaches` does at line 127, restores each set cache: an array gets every original key back at its original value, any other value comes back exactly |
| BootingProperties.ReplaceRecursiveUndoesDisable | Classes/Core/Booting/Scripts.php:127 | merging an entry back over its disabled form restores every key the entry had; the other keys keep what the disable wrote |
| BootingProperties.RoundTripKeepsFakeBackend | Classes/Core/Booting/Scripts.php:127 | a cache configured without a backend keeps the fake database backend after the merge |
| BootingProperties.DisableThenReEnableRestores | Classes/Core/Booting/Scripts.php:88-94 | the round trip through the merge at line 127 has two cases. A set cache that held an array gets every original key back at its original value. One that held another value gets it back exactly |
| BootingProperties.ReEnableKeepsUnsaved | Classes/Core/Booting/Scripts.php:127 | an id that was never saved keeps its configuration through the merge |
| BootingProperties.FilterOverriddenConcat | Classes/Core/Booting/Scripts.php:184-186 | filtering keeps the order: filtering a concatenation concatenates the filtered parts |
| BootingProperties.FilterOverriddenIdempotent | Classes/Core/Booting/Scripts.php:184-186 | filtering twice removes nothing more |
| Cli.FirstSegment | Classes/Mvc/Cli/RequestHandler.php:187 | the first segment is a prefix without a colon, followed by a colon when it is shorter than the identifier |
| Cli.Contains | Classes/Mvc/Cli/RequestHandler.php:136 | the needle is found exactly when it occurs at some position of the haystack |
| Cli.CommandIdentifier | Classes/Mvc/Cli/RequestHandler.php:70 | the identifier is empty exactly when there is no first argument or it is "" or "0"; otherwise it is the argument |
| Cli.CommandNamespace | Classes/Mvc/Cli/RequestHandler.php:135-138 | no contract of its own: the package key when the package path contains `typo3conf/ext/`, else `typo3`; used in the contract of `RegisterPackageCommand` and the row `PackageCommandsPassNamespaces` |
| Cli.Message | Classes/Mvc/Cli/RequestHandler.php:143 | no contract of its own: the exception message, the same text as at line 187 |
| Cli.Throw | Classes/Mvc/Cli/RequestHandler.php:142-145 | a clash leaves the request with code 1484486383 and the message naming the command and its registrant |
| Cli.ControllerPass | Classes/Mvc/Cli/RequestHandler.php:177-197 | no contract of its own: the controller pass, stopping at the first clash; its properties are the `CliProperties.ControllerPass…` rows |
| Cli.PackageCommandsPass | Classes/Mvc/Cli/RequestHandler.php:130-152 | no contract of its own: one package's command file, stopping at the first clash; its properties are the `CliProperties.PackageCommandsPass…` rows |
| Cli.PackagesPass | Classes/Mvc/Cli/RequestHandler.php:125-155 | no contract of its own: every active package in order, skipping those without a command array; its properties are the `CliProperties.PackagesPass…` rows |
| Cli.ThenPackages | Classes/Mvc/Cli/RequestHandler.php:125-155 | no contract of its own: the remaining packages, unless the current file clashed |
| Cli.Populate | Classes/Mvc/Cli/RequestHandler.php:121-156 | no contract of its own: the controller pass, then the package pass; its properties are the rows `PopulateControllersFirst` and `PopulateValid` |
| Cli.RegisterControllerCommand | Classes/Mvc/Cli/RequestHandler.php:178-196 | the help command is skipped. A free shortest identifier is used, and when it is taken the full one is. When both are taken, the step fails with the full identifier and its first segment, and nothing changes. Otherwise the name is recorded and the command added, hidden when internal |
| Cli.RegisterPackageCommand | Classes/Mvc/Cli/RequestHandler.php:131-151 | ignored names change nothing. A taken name is prefixed with the package namespace. The step fails, unchanged, with the package key exactly when the resulting name is taken. Otherwise the name is recorded, and the command is added only when it is available |
| Cli.RequestHandler.constructor | Classes/Mvc/Cli/RequestHandler.php:50 | no names are registered and no command is added |
| Cli.RequestHandler.RegisterCommandsFromCommandControllers | Classes/Mvc/Cli/RequestHandler.php:174-198 | the new names, commands and outcome are those of `ControllerPass`, and each name stays registered once |
| Cli.RequestHandler.RegisterPackageCommands | Classes/Mvc/Cli/RequestHandler.php:130-152 | the inner loop over one package's command file: the new names, commands and outcome are those of `PackageCommandsPass`, and each name stays registered once |
| Cli.RequestHandler.PopulateCommands | Classes/Mvc/Cli/RequestHandler.php:121-156 | the new names, commands and outcome are those of `Populate` (controllers, then package files), and each name stays registered once |
| Cli.RequestHandler.HandleRequest | Classes/Mvc/Cli/RequestHandler.php:68-84 | a clash while populating throws before any boot. The host is booted exactly when the command is available, and a failing boot ends the request. The second controller pass runs only after a successful boot with all capabilities, and a clash there throws. A Response with the run's exit code is stored exactly when nothing threw; otherwise the stored response is unchanged |
| CliProperties.ControllerPassGrows | Classes/Mvc/Cli/RequestHandler.php:174-198 | the controller pass only appends names and commands, also when it fails (no rollback) |
| CliProperties.ControllerPassValid | Classes/Mvc/Cli/RequestHandler.php:183-196 | the controller pass registers each name once, and every added command under its registered name |
| CliProperties.ControllerPassSkipsHelp | Classes/Mvc/Cli/RequestHandler.php:180-182 | the pass is the same as the pass over the commands without `typo3_console:help:help` |
| CliProperties.ControllerPassRegistersAll | Classes/Mvc/Cli/RequestHandler.php:177-196 | after a completed pass, every command except the help command is added (hidden exactly when internal) and its shortest identifier is registered |
| CliProperties.ControllerPassAddsOnlyListed | Classes/Mvc/Cli/RequestHandler.php:177-196 | every command the pass adds comes from a listed command, under its shortest or full identifier |
| CliProperties.ControllerPassFallsBack | Classes/Mvc/Cli/RequestHandler.php:183-185 | a command whose shortest identifier was taken at its turn is registered and added under its full identifier by a completed pass |
| CliProperties.ControllerPassFailure | Classes/Mvc/Cli/RequestHandler.php:186-188 | a failure names the full identifier of a listed command whose shortest and full identifiers are both registered, with its first segment as registrant |
| CliProperties.PackageCommandsPassGrows | Classes/Mvc/Cli/RequestHandler.php:130-152 | one command file only appends names and commands, also when it fails |
| CliProperties.PackagesPassGrows | Classes/Mvc/Cli/RequestHandler.php:125-155 | the package pass only appends names and commands, also when it fails |
| CliProperties.PackageCommandsPassValid | Classes/Mvc/Cli/RequestHandler.php:134-151 | one command file keeps each name registered once |
| CliProperties.PackagesPassValid | Classes/Mvc/Cli/RequestHandler.php:125-155 | the package pass keeps each name registered once |
| CliProperties.PackageCommandsPassSkipsIgnored | Classes/Mvc/Cli/RequestHandler.php:131-133 | a command file gives the same result as the file without `extbase`, `_extbase_help` and `_core_command` |
| CliProperties.PackageCommandsPassRegistersAll | Classes/Mvc/Cli/RequestHandler.php:134-151 | after a completed file, every name in it that is not ignored is registered |
| CliProperties.PackageCommandsPassNamespaces | Classes/Mvc/Cli/RequestHandler.php:134-140 | a command whose name was taken at its turn is registered by a completed file as `<namespace>:<name>` |
| CliProperties.PackagesPassRegistersAll | Classes/Mvc/Cli/RequestHandler.php:125-155 | after a completed pass, every non-ignored name in every package's command file is registered |
| CliProperties.PackageCommandsPassNames | Classes/Mvc/Cli/RequestHandler.php:134-151 | every new name is a listed name or its namespaced form; every new command is registered and available |
| CliProperties.PackagesPassNames | Classes/Mvc/Cli/RequestHandler.php:125-155 | every new name comes from a package's command file, bare or namespaced; every new command is registered and available |
| CliProperties.PackageCommandsPassFailure | Classes/Mvc/Cli/RequestHandler.php:141-146 | a failure in a file names a registered name and that file's package key |
| CliProperties.PackagesPassFailure | Classes/Mvc/Cli/RequestHandler.php:141-146 | a failure names a registered name and the key of a listed package |
| CliProperties.PopulateControllersFirst | Classes/Mvc/Cli/RequestHandler.php:123-125 | the controller commands' names come before every package name, and a controller clash ends populating before any package file is read |
| CliProperties.PopulateValid | Classes/Mvc/Cli/RequestHandler.php:121-156 | populating keeps each name registered once |

## Left out

- Package command files are not discovered on disk. `is_file`, `require_once` and the `is_array` test become a package input whose command list is absent when there is no array.
- PHP stores a string key that spells a decimal integer ("5") as an integer key. The model keeps `StrKey("5")` and `IntKey(5)` apart, and command names are always strings, so this normalisation is not modelled.
- Numeric keys in a command file are left out. The command names in a file are modelled as strings, so an integer key, which `in_array(..., true)` never matches, is not represented.
- The object built from a command file entry's `class` key is not modelled. Only the class name is kept. A missing `class` key is not modelled either.
- The command manager, the console application and the package manager are inputs:
  - the lists of available and newly available controller commands;
  - each command's shortest identifier;
  - `isCommandAvailable`;
  - `hasAllCapabilities` after booting;
  - the exit code of `run`.
- Booting the host for a command through the run-level sequence is an opaque step. It is recorded as the command identifier the host was booted for. Whether it throws is an input (`bootFails`), which decides the `BootFailed` outcome of `HandleRequest`. The run-level classes are not part of this model.
- `getPriority` and `canHandleRequest` are not modelled; they return constants.
- The host bootstrap calls are not modelled:
  - `populateLocalConfiguration`, the runtime-activated packages, the cache hash options, the user agent and database constants, and the time zone;
  - `disableCoreCache` (recorded as a flag);
  - `loadExtLocalconf`, `setFinalCachingFrameworkCacheConfiguration`, the logging constants, `unsetReservedGlobalVariables` and `loadBaseTca`.
- `initializeErrorHandling`, the cache manager and database initialisation, the backend-user and authentication scripts, and the other boot scripts are outside the modelled part of the file.
- The Extbase container registration, `class_alias` and the legacy schema-update registration behind `class_exists` are runtime class mechanics. They are not modelled.
- The cache manager is reduced to the configurations handed to it and the set of cache identifiers it holds. The reflection used to empty it becomes the set becoming empty.
- Booting.Scripts.DisableCachesForObjectManagement: a cache entry that is a scalar other than null or false stops the loop with an `IllegalOffset` outcome, after its copy is saved. This stands in for PHP's warning or error, which the console's error handler turns into an exception. The model does not reproduce PHP's string-offset writes.
- Booting.Scripts.FilterOverriddenCoreCommandControllers: requires the registered controllers to be an array, as `array_filter` does. A non-array is a PHP type error and is not modelled.
- Booting.Scripts.ProvideCleanClassImplementations: requires writable object entries and a type-converter setting that is empty or an array. PHP's errors for other scalars are not modelled.
- Booting.Scripts.OverrideImplementation: requires the object entry to be writable, for the same reason.
- Booting.AddArrayConverter: requires an empty setting or an array, for the same reason.
- Booting.OverrideObject: requires the object entry to be writable, for the same reason.
- PhpArrays.NextIndex: computed from the keys present. PHP also remembers the largest integer key of entries that were since unset; the modelled paths never unset an entry. PHP integer keys are 64-bit, and `$a[] =` fails once an array holds the key `PHP_INT_MAX`; the model's integer keys and its next index are unbounded.
- Booting.WritableArray: follows PHP 7.1 and later, where an empty string cannot be written into. On PHP 7.0 and earlier, an empty string is turned into an array when a key is written into it, as `false` is.
- The root cache configuration array and the objects array are assumed to be arrays.
- Floating-point values, references and objects inside configuration arrays are not modelled.

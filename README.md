# MuseScore modularity: identity extraction and the service registry

MuseScore's components find each other through a process-wide service
registry, `mu::modularity::ModulesIoC`. A component registers a provider
for an interface type `I`, either an instance or a creator. Other
components then resolve `I` without seeing the implementation.

The registry never asks for an explicit key. It takes the text the
compiler writes for `getInterfaceInfo<I>()`, for example

    constexpr mu::modularity::InterfaceInfo mu::modularity::getInterfaceInfo() [with I = mu::update::IUpdateConfiguration]

and slices two strings out of it:
- the interface name (`IUpdateConfiguration`), which becomes the key;
- the owning module (`update`).

This project models both parts in Dafny and proves what they do.

- `wrappers.dfy` (module `Wrappers`): `Option`.
- `string_view.dfy` (module `StringView`): the `std::string_view` members the
  parsers call, with `std::size_t` wrap-around written out. These are
  `find`, `rfind`, `find_first_of`, `find_last_of` and `substr`. A search
  returns `None` for `npos`. Each search is proved, in a lemma of its own,
  against a reference predicate for the first or last occurrence.
- `module_info.dfy` (module `ModuleInfo`): `InterfaceInfo` and the three
  parsers `moduleNameBySig`, `moduleNameByInterface` and `interfaceName`.
  Each parser is written as a pure function. Lemmas pin down its result
  case by case: the fallbacks that return the whole input, the exact slice
  boundaries, and the shape the compiler writes.
- `documented_signatures.dfy` (module `DocumentedSignatures`): what the
  parsers yield on the signature documented in the source.
- `modules_ioc.dfy` (module `ModulesIoC`): `getInterfaceInfo` and the class
  `Registry`, which is `ModulesIoC`.
  - Its field `services` is `m_map`. Its methods change it as the C++
    methods do.
  - Instances are objects of class `Instance`, and `null` is an empty
    `shared_ptr`.
  - `ModuleCreator.Create` makes a new object on every call, as
    `Creator<T>::create` does.
  - A failed check is returned as a `Report` value. `NullProvider` stands
    for the bare `assert` on a null provider, which prints nothing. The
    other reports carry what the message to `std::cerr` prints.
- `registry_scenarios.dfy` (module `RegistryScenarios`): call sequences on a
  new registry, with what the caller observes.

Two facts about the code shape the model:
- `getInterfaceInfo` always passes `internal = false` (modulesioc.h:42).
  So `registerInternal*` registers exactly as `registerExport*` does. The
  visibility check at modulesioc.h:217-229 fires only for an
  `InterfaceInfo` built by hand. The model states that check for an
  `InterfaceInfo` given directly (`DoResolvePtrByInfo`,
  `InternalViolationReported`), and proves that it never fires through
  `Resolve`.
- A null provider is refused by `assert(c); return;` in the creator forms
  (modulesioc.h:55-58, 96-99). The instance forms use `assert(p); return;`
  (modulesioc.h:65-68, 75-78, 85-88, 106-109, 116-119, 126-129). The model
  returns `NullProvider` and leaves the map unchanged, as a build with
  `NDEBUG` does.

## Model

| member | source | states |
|---|---|---|
| StringView.SizeAdd | src/framework/global/modularity/moduleinfo.h:72 | `a + b` in 64-bit `size_t` stays below 2^64 and is the sum itself or the sum less 2^64 |
| StringView.SizeAddIsModular | src/framework/global/modularity/moduleinfo.h:72 | `a + b` in 64-bit `size_t` is the sum reduced modulo 2^64, as C++ defines unsigned addition |
| StringView.SizeSub | src/framework/global/modularity/moduleinfo.h:74 | `a - b` in 64-bit `size_t` stays below 2^64 and is the difference itself or the difference plus 2^64 |
| StringView.SizeSubIsModular | src/framework/global/modularity/moduleinfo.h:74 | `a - b` in 64-bit `size_t` is the difference reduced modulo 2^64, as C++ defines unsigned subtraction |
| StringView.Find | src/framework/global/modularity/moduleinfo.h:90 | a position `find(pat, pos)` returns lies at or after `pos`, with all of `pat` inside the view |
| StringView.FindIsFirst | src/framework/global/modularity/moduleinfo.h:90-101 | `find(pat, pos)` returns the first start of `pat` at or after `pos`, or `npos` exactly when `pat` starts nowhere from `pos` on |
| StringView.RFind | src/framework/global/modularity/moduleinfo.h:124 | a position `rfind(pat, pos)` returns lies at or before `pos`, with all of `pat` inside the view |
| StringView.RFindIsLast | src/framework/global/modularity/moduleinfo.h:124 | `rfind(pat, pos)` returns the last start of `pat` at or before `pos`, or `npos` exactly when there is none |
| StringView.FindFirstOf | src/framework/global/modularity/moduleinfo.h:62 | a position `find_first_of(chars, pos)` returns lies at or after `pos`, inside the view, and holds one of `chars` |
| StringView.FindFirstOfIsFirst | src/framework/global/modularity/moduleinfo.h:62 | `find_first_of(chars, pos)` returns the first index at or after `pos` holding one of `chars`, or `npos` when no such index exists |
| StringView.FindLastOf | src/framework/global/modularity/moduleinfo.h:67 | a position `find_last_of(chars, pos)` returns lies at or before `pos`, inside the view, and holds one of `chars` |
| StringView.FindLastOfIsLast | src/framework/global/modularity/moduleinfo.h:67 | `find_last_of(chars, pos)` returns the last index at or before `pos` holding one of `chars`, or `npos` when none does |
| StringView.Substr | src/framework/global/modularity/moduleinfo.h:103-107 | `substr(pos, count)` is the slice of `count` characters from `pos`, clipped at the end of the view |
| StringView.SubstrIsSlice | src/framework/global/modularity/moduleinfo.h:107 | what `substr` returns is a contiguous piece of the view |
| ModuleInfo.CheckedSubstr | src/framework/global/modularity/moduleinfo.h:74 | `substr` throws exactly when `pos` is past the end |
| ModuleInfo.CheckedSubstrIsSlice | src/framework/global/modularity/moduleinfo.h:74 | a `substr` that does not throw gives a contiguous piece of the view |
| ModuleInfo.ModuleNameBySigIsSlice | src/framework/global/modularity/moduleinfo.h:53-76 | every result of moduleNameBySig as written that is not a thrown `out_of_range` is a contiguous slice of the signature |
| ModuleInfo.ModuleNameBySigWithoutParen | src/framework/global/modularity/moduleinfo.h:62-65 | a signature without `(` comes back whole |
| ModuleInfo.ModuleNameBySigWithoutSpace | src/framework/global/modularity/moduleinfo.h:67-70 | a signature with no space before its first `(` comes back whole |
| ModuleInfo.ColonSet | src/framework/global/modularity/moduleinfo.h:72-73 | `find_first_of("::")` finds single colons: searching for the set `"::"` and for `":"` agree, both ways |
| ModuleInfo.ModuleNameBySigStart | src/framework/global/modularity/moduleinfo.h:62-74 | with the first `(` at `p`, the last space before it at `b` and the first colon after that at `c`, the slice starts at `c + 2` |
| ModuleInfo.ModuleNameBySigOutOfRange | src/framework/global/modularity/moduleinfo.h:74 | a colon in the last position makes the final `substr` throw `out_of_range` |
| ModuleInfo.ModuleNameBySigToColon | src/framework/global/modularity/moduleinfo.h:72-75 | the module name is exactly the text from 2 past the first colon after the space up to the next colon |
| ModuleInfo.ModuleNameBySigToEnd | src/framework/global/modularity/moduleinfo.h:73-75 | without a further colon the module name runs from `c + 2` to the end of the signature |
| ModuleInfo.ModuleNameBySigWraps | src/framework/global/modularity/moduleinfo.h:72 | with a space before `(` but no colon after it, `npos + 2` wraps to 1 and the result is a slice starting at index 1, not the whole input |
| ModuleInfo.ModuleNameBySigWrapsExample | src/framework/global/modularity/moduleinfo.h:72-74 | `void f()` yields `oid f()`, which is no slice lying after the space |
| ModuleInfo.ModuleNameBySigCheckedIsSlice | src/framework/global/modularity/moduleinfo.h:53-76 | moduleNameBySig with an `npos` check on the colon search: every non-throwing result is a slice of the signature |
| ModuleInfo.ModuleNameBySigCheckedStaysAfterSpace | src/framework/global/modularity/moduleinfo.h:67-75 | the corrected parser returns the whole signature, throws, or returns a slice that starts after the space before the method name |
| ModuleInfo.ModuleNameBySigCheckedAgrees | src/framework/global/modularity/moduleinfo.h:72-75 | the corrected parser equals the one as written whenever a colon follows the space |
| ModuleInfo.ModuleNameBySigCheckedFallsBack | src/framework/global/modularity/moduleinfo.h:63-70 | on `void f()` the corrected parser falls back to the whole signature, as the other missing-delimiter cases do |
| ModuleInfo.ModuleNameBySigOfMethod | src/framework/global/modularity/moduleinfo.h:59-75 | for `<type> <root>::<module>::<rest>` with the `(` in `rest`, the result is `module` |
| ModuleInfo.ModuleNameBySigExample | src/framework/global/modularity/moduleinfo.h:59-60 | the documented `SomeType mu::modulename::maybe::ClassName::methodName()` yields `modulename` |
| ModuleInfo.ModuleNameByInterfaceIsSlice | src/framework/global/modularity/moduleinfo.h:78-109 | the result of moduleNameByInterface is always a contiguous slice of the signature |
| ModuleInfo.ModuleNameByInterfaceWithoutClause | src/framework/global/modularity/moduleinfo.h:90-93 | without `[with ` the signature comes back whole |
| ModuleInfo.ModuleNameByInterfaceWithoutSeparator | src/framework/global/modularity/moduleinfo.h:95-98 | without `::` after the first `[with ` the signature comes back whole |
| ModuleInfo.ModuleNameByInterfaceExtracts | src/framework/global/modularity/moduleinfo.h:99-108 | the result is exactly the text between the first `::` after `[with ` and the next `::` |
| ModuleInfo.ModuleNameByInterfaceOfFinds | src/framework/global/modularity/moduleinfo.h:99-108 | with the three searches answering `w`, `c` and `d`, the result is the text from `c + 2` up to `d` |
| ModuleInfo.ModuleNameByInterfaceToBracket | src/framework/global/modularity/moduleinfo.h:101-105 | with no second `::`, the result is the rest of the signature minus its final character; it is empty when the `::` ends the text |
| ModuleInfo.ModuleNameByInterfaceOfFindsNone | src/framework/global/modularity/moduleinfo.h:99-104 | with the second `::` search answering `npos`, the first `::` ends inside the view and the result is `substr(c + 2, size - (c + 2) - 1)` |
| ModuleInfo.RestLessOne | src/framework/global/modularity/moduleinfo.h:103 | `size - begin - 1` in `size_t` is one less than the rest, or `npos` when nothing is left |
| ModuleInfo.InterfaceNameIsSlice | src/framework/global/modularity/moduleinfo.h:111-132 | the result of interfaceName is always a contiguous slice of the signature |
| ModuleInfo.FoundBeforeBracket | src/framework/global/modularity/moduleinfo.h:119-130 | the `::` that `rfind` finds from the first `]` ends before that `]`, so the count `endInterface - beginInterface` does not wrap |
| ModuleInfo.InterfaceNameWithoutBracket | src/framework/global/modularity/moduleinfo.h:119-122 | a signature without `]` comes back whole |
| ModuleInfo.InterfaceNameWithoutSeparator | src/framework/global/modularity/moduleinfo.h:124-127 | with no `::` at or before the first `]` the signature comes back whole |
| ModuleInfo.InterfaceNameExtracts | src/framework/global/modularity/moduleinfo.h:128-131 | the result is exactly the text between the last `::` before the first `]` and that `]` |
| ModuleInfo.QualifiedModule | src/framework/global/modularity/moduleinfo.h:80-108 | for `... [with I = <root>::<module>::<name>]`, moduleNameByInterface yields `module` |
| ModuleInfo.QualifiedName | src/framework/global/modularity/moduleinfo.h:113-131 | for `... [with I = <root>::<module>::<name>]`, interfaceName yields `name` |
| ModuleInfo.RootModule | src/framework/global/modularity/moduleinfo.h:83-105 | for an interface directly under the root namespace (the `mu::ICryptographicHash` TODO), the module name is the interface name |
| ModuleInfo.RootName | src/framework/global/modularity/moduleinfo.h:119-131 | for `... [with I = <root>::<name>]`, interfaceName yields `name` |
| DocumentedSignatures.DocumentedInterface | src/framework/global/modularity/moduleinfo.h:80-81 | the documented signature yields id `IUpdateConfiguration` and module `update` |
| ModulesIoC.GetInterfaceInfo | src/framework/global/modularity/modulesioc.h:36-43 | getInterfaceInfo never marks an interface internal; id and module are slices of the signature |
| ModulesIoC.GetInterfaceInfoQualified | src/framework/global/modularity/modulesioc.h:42 | for `I = <root>::<module>::<name>` the info is `(name, module, false)` |
| ModulesIoC.SameNameSameId | src/framework/global/modularity/modulesioc.h:42 | interfaces of one name in different modules get the same id, so they share a registry entry |
| ModulesIoC.ModuleCreator.Create | src/framework/global/modularity/modulesioc.h:257-261 | `Creator<T>::create` returns a new object |
| ModulesIoC.Registry.constructor | src/framework/global/modularity/modulesioc.h:182 | a new registry has an empty map |
| ModulesIoC.Registry.RegisterService | src/framework/global/modularity/modulesioc.h:189-209 | a taken id is reported with the new and the first module and leaves the map unchanged; otherwise exactly `id := (creator, module, instance)` is added |
| ModulesIoC.Registry.RegisterExportCreator | src/framework/global/modularity/modulesioc.h:52-60 | a null creator is reported and changes nothing; otherwise registerService with the creator and no instance; keeps one provider per entry |
| ModulesIoC.Registry.RegisterExport | src/framework/global/modularity/modulesioc.h:62-90 | a null instance is reported and changes nothing; otherwise registerService with the instance and no creator; keeps one provider per entry |
| ModulesIoC.Registry.RegisterInternalCreator | src/framework/global/modularity/modulesioc.h:93-101 | the same outcome as registerExportCreator |
| ModulesIoC.Registry.RegisterInternal | src/framework/global/modularity/modulesioc.h:103-131 | the same outcome as registerExport |
| ModulesIoC.Registry.UnregisterService | src/framework/global/modularity/modulesioc.h:184-187 | erases the id and nothing else; a no-op when it is absent |
| ModulesIoC.Registry.Unregister | src/framework/global/modularity/modulesioc.h:134-138 | erases the interface's id and nothing else; a no-op when it is absent |
| ModulesIoC.Registry.DoResolvePtrByInfo | src/framework/global/modularity/modulesioc.h:211-246 | reports exactly an internal interface used from another module, with "unknown" for an empty call site; absent id gives null, a stored instance is returned, a creator gives a new object; the map never changes |
| ModulesIoC.Registry.Resolve | src/framework/global/modularity/modulesioc.h:149-162 | null exactly when the interface is not registered; the stored instance when there is one; otherwise a new object; never a visibility report |
| ModulesIoC.Registry.ResolveRequiredImport | src/framework/global/modularity/modulesioc.h:164-173 | resolves as `resolve` does; reports `not found` with the id exactly when the result is null |
| ModulesIoC.Registry.UnregisterIfRegistered | src/framework/global/modularity/modulesioc.h:140-146 | erases the entry exactly when it holds the given non-null instance; an entry with a creator is never erased |
| ModulesIoC.Registry.Reset | src/framework/global/modularity/modulesioc.h:175-178 | the map is empty afterwards |
| RegistryScenarios.RegisterThenResolve | src/framework/global/modularity/modulesioc.h:236-239 | a registered instance resolves to that very instance |
| RegistryScenarios.InternalResolvesAnywhere | src/framework/global/modularity/modulesioc.h:123-131 | an internal registration resolves from any module, without a report |
| RegistryScenarios.FactoryFreshness | src/framework/global/modularity/modulesioc.h:241-243 | two resolutions through a creator give two different non-null objects |
| RegistryScenarios.DoubleRegisterKeepsFirst | src/framework/global/modularity/modulesioc.h:194-200 | a second registration is reported with both modules and the first provider stays in force |
| RegistryScenarios.NullProviderRefused | src/framework/global/modularity/modulesioc.h:55-68 | a null instance and a null creator are both refused; nothing resolves |
| RegistryScenarios.UnregisterFreesId | src/framework/global/modularity/modulesioc.h:184-187 | after unregister the interface resolves to null and can be registered again |
| RegistryScenarios.UnregisterIfCurrent | src/framework/global/modularity/modulesioc.h:140-146 | a stale handle leaves the registration alone; the registered handle removes it |
| RegistryScenarios.CreatorSurvivesUnregisterIfRegistered | src/framework/global/modularity/modulesioc.h:143 | an object made by the creator does not unregister the creator |
| RegistryScenarios.ResetForgets | src/framework/global/modularity/modulesioc.h:175-178 | after reset nothing resolves and a required import is reported missing |
| RegistryScenarios.RequiredImportFound | src/framework/global/modularity/modulesioc.h:164-172 | a registered required import resolves to its instance without a report |
| RegistryScenarios.InternalViolationReported | src/framework/global/modularity/modulesioc.h:217-229 | an internal interface resolved from another module is reported with "unknown" for the call site, and its registered instance is still returned |

## Left out

- The second copy of the three parsers (moduleinfo.h:135-214), used for GCC before 11, has the same function bodies as the copy at moduleinfo.h:53-132 and is not modelled twice. The macro switch between the two and the capture of `__PRETTY_FUNCTION__` / `__FUNCSIG__` are compiler behaviour. The signature text is a parameter `sig` of every member instead.
- Parsers' `requires IsView(sig)`: a `std::string_view` is never as long as `npos`. The precondition only rules out lengths a view cannot have.
- `ModulesIoC::instance()`: its body is not part of this model. Each scenario uses a new `Registry` instead of the process-wide one.
- Templates over `I` and `std::reinterpret_pointer_cast`: the type `I` is replaced by its signature text, so the cast back to `I` has nothing to model.
- `std::shared_ptr` reference counting and the no-op deleter of `registerExportNoDelete` / `registerInternalNoDelete`: instances are object identities. The raw-pointer, no-delete and `shared_ptr` forms of `registerExport` and `registerInternal` reach the same `registerService` call, so the three forms of each are one method (`RegisterExport`, `RegisterInternal`).
- ModulesIoC.ModuleCreator.Create: only `Creator<T>` is modelled, which makes a new object each time. Another `IModuleCreator` could hand out a shared or null object. That freedom is not modelled. `IModuleCreator` and `INJECT` live in headers that are not part of this model.
- `std::cerr` output, `assert` and `std::abort`: each diagnostic is returned as a `Report` with the values the message prints, and the model then goes on as a build with `NDEBUG` does. The process ending in a debug build is not modelled.
- A `std::string_view` holds bytes, while a Dafny `string` holds characters. The two differ only for text outside ASCII. The searches look for ASCII delimiters, so they find the same delimiters in both. Where the code steps a fixed distance from a found position, though, a byte and a character no longer agree, and the model follows characters. This happens in three places. (1) The `+ 2` at moduleinfo.h:72 steps over a lone `:` and one more byte, while the model steps over the `:` and one character: on `T a:é()` the model gives `()` and the bytes give the second byte of `é` followed by `()`. (2) The `npos + 2` wrap at moduleinfo.h:72 starts the slice at byte 1, while the model starts at character 1: on `é f()` the model gives ` f()` and the bytes give the second byte of `é` followed by ` f()`. (3) The `- 1` for the closing `]` at moduleinfo.h:103 drops the last byte, while the model drops the last character. On signatures written entirely in ASCII the model and the code agree everywhere.
- The `std::map` is keyed by `std::string_view` pointing into the compiler's signature text. The model keys by the string's contents, which is how the map compares keys.
- Thread safety: the source has no locking, and concurrency is not modelled.
- `src/project/internal/opensaveprojectscenario.h` and `src/project/internal/recentfilescontroller.h` hold declarations only. Nothing in them is modelled.

## Findings

| source | as written | input that shows it | evidently intended | confidence | as-written member | corrected member |
|---|---|---|---|---|---|---|
| src/framework/global/modularity/moduleinfo.h:72 | `find_first_of(Colon, beginMethod) + 2` has no `npos` check. When no colon follows the space before `(`, `npos + 2` wraps to 1 and the module name is sliced from index 1. | `void f()` gives `oid f()` | Fall back to the whole signature, as both sibling parsers do after their searches (moduleinfo.h:95-99, 124-128). | not executed | ModuleInfo.ModuleNameBySigWraps, ModuleInfo.ModuleNameBySigWrapsExample | ModuleInfo.ModuleNameBySigChecked, ModuleInfo.ModuleNameBySigCheckedStaysAfterSpace |

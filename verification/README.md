# postject, modelled in Dafny

postject injects a read-only resource (an arbitrary byte string) into a
compiled executable so that the program can find it at run time. It has three
parts, and this project models the decision logic of each:

- **The C++ injector** (`src/postject.cpp`) and its older Python twin
  (`postject.py`). The injector detects whether the image is ELF, Mach-O or
  PE, then places the payload:
  - ELF: as a note named after the resource;
  - Mach-O: as a section of a named segment, in every slice of a fat
    binary, creating the segment read-only when it is missing and dropping
    the code signature;
  - PE: as an entry of the three-level resource tree: the RCDATA type
    directory, then a directory named after the resource, then a
    language entry holding the bytes.

  A resource that is already present is refused unless the caller asks to
  overwrite it.
- **The front-ends**: the library call `inject` (`src/api.js`), the
  command-line `main` (`src/main.js`, `main` in `postject.py`) and the
  hand-written argument parser (`src/argsParser.js`).
  - They normalise the resource name: Mach-O section names get a `__`
    prefix, PE names are upper-cased, and ELF names pass through.
  - They map the injector's verdict to a thrown error or an exit code.
- **The run-time lookup header** (`postject-api.h`): how a program picks the
  Mach-O segment and section its resource lives in.

LIEF, which parses and rebuilds the images, is not modelled. Its parser and
serialiser are function parameters (oracles), and so are:

- LIEF's format recognisers (`Postject.Probes`);
- the WebAssembly injector as seen from JavaScript;
- `util.parseArgs`;
- the Mach-O loader calls `getsectdata` and `getsectdatafromFramework`.

A parsed image is reduced to what the injector touches:

- an ELF image to its list of notes;
- a Mach-O image to its segments, their sections, and a code-signature flag;
- a PE image to its resource tree.

The filesystem is reduced to what each call reports: whether `access`
succeeds, the bytes read, and whether the write succeeds.

Modules, in dependency order:

| module | file | contents |
|---|---|---|
| `Basics` | `basics.dfy` | bytes, `Option` |
| `Seqs` | `seqs.dfy` | filtering, first and last index, removal, with their lemmas |
| `Postject` | `postject.dfy` | the public enums and result struct, and C++ format detection |
| `Names` | `names.dfy` | name normalisation |
| `ElfInject` | `elf_inject.dfy` | the C++ ELF policy |
| `MachOInject` | `macho_inject.dfy` | the C++ Mach-O policy |
| `PeInject` | `pe_inject.dfy` | the C++ PE policy |
| `PyInjector` | `py_injector.dfy` | the Python injectors, as written and as intended |
| `Frontend` | `frontend.dfy` | the per-format dispatch the front-ends share |
| `Api` | `api.dfy` | `inject` |
| `CliMain` | `cli_main.dfy` | `main.js` |
| `PyMain` | `py_main.dfy` | Python `main` |
| `ArgsParser` | `args_parser.dfy` | `argumentsParser` |
| `OptionTable` | `option_table.dfy` | the option table's keys |
| `LookupApi` | `lookup_api.dfy` | the Mach-O side of `postject-api.h` |

## Model

| member | source | states |
|---|---|---|
| Postject.DetectFormat | src/postject.cpp:10-21 | ELF is recognised first, then Mach-O, then PE; kUnknown exactly when no recogniser accepts the image (each outcome as an if-and-only-if over the three probes) |
| Postject.ToInjectResult | src/postject.hpp:11-15 | the result type is kSuccess, kError or kAlreadyExists exactly when the policy injected, failed to parse or found the resource; the output is the serialised image on success and empty otherwise |
| Names.UpperChar | src/api.js:92 | ASCII upper-casing of one character: a lower-case letter moves 32 code points down to its capital; every other character is unchanged |
| Names.MachOSectionName | src/api.js:43-48 | the section name always starts with `__`; a name already starting with `__` is kept, any other gets exactly `__` in front |
| Names.PeResourceName | src/api.js:92 | same length as the name; each lower-case ASCII letter becomes its capital (32 code points down); every other character unchanged, so no lower-case letter is left |
| Names.ElfNoteName | src/api.js:69-71 | the ELF note name is the resource name, untransformed (no contract: it is the identity, whose use `Frontend.RequestedNames` states) |
| Names.MachOSectionNameIdempotent | src/api.js:46-48 | normalising twice is normalising once |
| Names.MachOSectionNameAbsorbsPrefix | src/api.js:46-48 | `n` and `__n` pick the same section exactly when `n` does not itself start with `__` |
| Names.MachOSectionNameFixedPoints | src/api.js:46-48 | a name is left alone exactly when it starts with `__` |
| Names.PeResourceNameIdempotent | src/api.js:92 | upper-casing is idempotent and fixes exactly the names with no lower-case letter |
| Names.NormalisationExamples | src/main.js:58-63 | "foobar" becomes "__foobar" on Mach-O and "FOOBAR" on PE; "__foobar" is kept on Mach-O |
| ElfInject.ExistingNote | src/postject.cpp:37-43 | the search finds a note exactly when one has the name, and the one it finds is the last such note (no later note has the name) |
| ElfInject.ElfPolicy | src/postject.cpp:32-57 | parse failure iff Failed; already-exists iff parsed, no overwrite and a same-named note exists; on success the new note is last and the note count grows by one, or stays the same when a note was replaced |
| ElfInject.InjectIntoElf | src/postject.cpp:23-62 | the verdict as an if-and-only-if over parse failure, overwrite and note presence; output is LIEF's serialisation on success and empty otherwise |
| ElfInject.InjectedNotes | src/postject.cpp:45-57 | notes with other names are kept in order; among same-named notes only the last is dropped, and the new note follows them all |
| ElfInject.OverwriteLeavesOneNote | src/postject.cpp:45-57 | with overwrite and at most one same-named note before, exactly one remains afterwards, and it holds the new payload |
| MachOInject.HasSection | src/postject.cpp:81-82 | `get_section(segment, section)` succeeds exactly when the first segment with the name holds a section with the name |
| MachOInject.GetSegment | src/postject.cpp:93 | finds the first segment with the name, and none exactly when no segment has it |
| MachOInject.InjectSlice | src/postject.cpp:81-112 | refuses iff no overwrite and the segment already holds the section; otherwise the slice satisfies SliceInjected: the signature is gone, a missing segment is appended read-only holding only the new section, an existing segment keeps its name, protections and other sections, loses its first same-named section and gains the new one last, and no other segment changes |
| MachOInject.SectionsInjected | src/postject.cpp:84-106 | removing the first same-named section and appending the new one keeps the differently named sections in order |
| MachOInject.InjectFat | src/postject.cpp:79-113 | refuses iff no overwrite and some slice holds the section; otherwise every slice is injected as above and the slice count is unchanged |
| MachOInject.MachOPolicy | src/postject.cpp:71-113 | parse failure iff Failed; already-exists iff some slice holds the section and overwrite is off; on success the slice count is kept and every slice is injected as SliceInjected describes |
| MachOInject.InjectIntoMachO | src/postject.cpp:64-118 | the verdict as an if-and-only-if over parse failure, overwrite and section presence in any slice; on success the output is LIEF's serialisation of the injected fat binary, otherwise empty |
| MachOInject.SliceCarriesSection | src/postject.cpp:93-107 | after injection the segment found by name ends with the new section, and injecting again without overwrite is refused |
| PeInject.RcdataIndex | src/postject.cpp:150-158 | the first type directory with id RT_RCDATA (10), and none exactly when there is none |
| PeInject.NameIndex | src/postject.cpp:166-176 | the first name directory with the resource's name, and none exactly when there is none |
| PeInject.WithRcdata | src/postject.cpp:157-163 | an existing RCDATA directory is reused with the list unchanged; a missing one is appended last, empty; either way the result is the first RCDATA directory |
| PeInject.WithName | src/postject.cpp:175-185 | an existing directory with the name is reused with the list unchanged; a missing one is appended last, empty, with id 0x80000000; either way the result is the first directory with the name |
| PeInject.Lookup | src/postject.cpp:149-185 | the resource is found exactly when the first RCDATA directory has a name directory with the name, and then its entries are those of the first such name directory |
| PeInject.LangsOf | src/postject.cpp:187-188 | the resource's language entries, empty when it is not found |
| PeInject.PlaceResource | src/postject.cpp:149-199 | refuses iff no overwrite and the resource already has a language entry; otherwise the resource's entries are the old ones minus the first, followed by a new entry (id 0) holding the payload |
| PeInject.PePolicy | src/postject.cpp:130-199 | parse failure or a missing resource tree is Failed; already-exists iff the tree has an entry for the name and overwrite is off; on success the tree is kept and the name's entries are the old ones minus the first, followed by a new entry (id 0) with the payload |
| PeInject.InjectIntoPe | src/postject.cpp:120-235 | kError iff the parse fails or there is no resource tree; kAlreadyExists iff the tree has an entry for the name and overwrite is off; on success the output is LIEF's rebuild of the injected image, otherwise empty |
| PeInject.PlaceResourceKeepsOtherTypes | src/postject.cpp:149-163 | every type directory other than RCDATA keeps its place and contents; at most one directory is added |
| PeInject.PlaceResourceKeepsOtherNames | src/postject.cpp:165-199 | every other resource name looks up exactly as before |
| PeInject.NameLevelKeepsOthers | src/postject.cpp:175-185 | refilling or creating the named directory leaves every other name's entries unchanged |
| PeInject.NameIndexAppend | src/postject.cpp:183-184 | appending a directory with a different name does not move where a name is found |
| PeInject.ReinjectionIsBlocked | src/postject.cpp:188-192 | once injected, injecting the same name again without overwrite is refused |
| PyInjector.PyDetectFormat | postject.py:21-29 | PE is tested first, then ELF, then Mach-O; None exactly when nothing matches |
| PyInjector.DetectorsAgreeOnUnambiguousImages | postject.py:21-29 | when at most one recogniser accepts the image, the Python and C++ detectors agree (None standing for kUnknown) |
| PyInjector.DetectorsDisagreeOnElfAndPe | postject.py:21-29 | on an image both ELF and PE recognise, C++ answers ELF and Python answers PE |
| PyInjector.PyInjectElfAsWritten | postject.py:59-80 | refuses iff no overwrite and the name is present; overwriting drops the image's last note, whatever its name, and appends the new one; without a same-named note the new note is simply appended |
| PyInjector.PyElfOverwriteRemovesWrongNote | postject.py:63-71 | overwriting "foo" in notes [foo, bar] deletes "bar" and keeps the stale "foo" |
| PyInjector.PyInjectElf | postject.py:59-80 | as intended: same verdict; other notes kept in order; only the last same-named note is replaced |
| PyInjector.WriteEach | postject.py:169-193 | the loop that writes each slice as soon as it is injected: it runs to the end exactly when no slice is refused; on a refusal the number of writes is the index of the first refused slice; write k is the injection of slice k |
| PyInjector.PyInjectMachOAsWritten | postject.py:165-195 | refuses iff some slice holds the section without overwrite; write k is slice k injected as `SliceInjected` describes; on success one write per slice; on refusal the writes are exactly those of the slices before the first one holding the section |
| PyInjector.PyMachOWritesBeforeRefusing | postject.py:169-195 | a two-slice binary whose second slice holds the section is reported as not injected after one write |
| PyInjector.PyInjectMachO | postject.py:165-195 | as intended: same verdict; nothing written on refusal; on success one write of the whole fat binary, each slice injected |
| PyInjector.InsertById | postject.py:103 | inserting into an id-sorted list keeps it sorted and is a permutation of the list plus the element |
| PyInjector.SortById | postject.py:103 | the result is sorted by id and is a permutation of the input |
| PyInjector.SortedTreeFindsNewRcdata | postject.py:91-103 | after the added RCDATA directory is sorted into a tree that had none, the first RCDATA directory is the added one |
| PyInjector.PyRefill | postject.py:117-128 | an existing first entry moves to the end carrying the payload and keeping its language id (assuming the handle survives the delete, see "Left out"); otherwise a single new entry holds the payload |
| PyInjector.PyPlaceResource | postject.py:88-128 | refuses iff no overwrite and the name has an entry; otherwise the name's entries are the refilled ones; a created RCDATA directory leaves the tree sorted by id |
| PyInjector.PyPlaceIn | postject.py:105-128 | the same verdict and resulting entries, below an existing RCDATA directory |
| PyInjector.PyPlaceInKeepsOrder | postject.py:103-128 | placement below RCDATA keeps a tree sorted by id sorted |
| PyInjector.PyPlaceCreatesRcdata | postject.py:91-128 | a tree with no RCDATA directory always accepts, and the name then holds just the new entry |
| PyInjector.PlacementsAgreeOnVerdict | postject.py:117-125 | Python refuses exactly when C++ reports already-exists |
| PyInjector.RefillContents | postject.py:117-128 | the Python refill and the C++ one hold the same number of entries with the same contents in the same order |
| PyInjector.PlacementsAgreeOnContents | postject.py:117-128 | when both inject, the name's entries after the Python and the C++ placement have the same contents in the same order; only the language id of a moved entry can differ |
| Frontend.RequestFor | src/api.js:40-109 | no injector call exactly for kUnknown; otherwise the call for the format, carrying the payload, the overwrite flag and, on Mach-O, the segment |
| Frontend.RequestedNames | src/api.js:43-92 | Mach-O receives a name that starts with `__`, ends with the requested name, and equals it iff it already started with `__`; ELF receives the name unchanged; PE receives a name of the same length in which each lower-case letter is replaced by its capital and nothing else changes |
| Frontend.EquivalentRequests | src/api.js:46-92 | `n` and `__n` make the same Mach-O call unless `n` starts with `__`; a name and its upper-case form make the same PE call |
| Frontend.NeverRejects | src/api.js:31 | the guard as written: JavaScript's `!` applied to the embind enum object it receives; since objects are truthy it never rejects, whatever the format |
| Frontend.RejectsUnknown | src/main.js:47 | the guard as intended: exactly kUnknown is refused (no contract: the predicate is the definition, and `Api.Inject` and `CliMain.Main` state its effect) |
| Frontend.SwitchResult | src/api.js:40-109 | the switch yields no result exactly for kUnknown, and otherwise the injector's verdict on the request for the format |
| Api.SegmentOption | src/api.js:7 | never empty; the default `__POSTJECT` exactly when the option is missing, empty or already `__POSTJECT`; otherwise the caller's name |
| Api.OverwriteOption | src/api.js:8 | true exactly when the caller passed `overwrite: true` |
| Api.Message | src/api.js:58-106 | every message is non-empty; each "already exists" message names the resource (`segment/section` on Mach-O) and ends with the overwrite hint |
| Api.CallMade | src/api.js:10-109 | an injector call is made iff the buffer check, access, read and format guard pass and the format is known; it carries the bytes read, the payload, the defaulted options and, on Mach-O, the defaulted segment |
| Api.InjectWith | src/api.js:6-120 | no buffer throws first, then no access, then an unreadable target; unsupported-format iff the guard rejects; already-exists iff the injector said so, carrying the request; the generic injection error iff the injector reported an error or an unknown format got past the guard; a successful injection whose write fails throws the write error; written iff the call succeeded and the write works, with exactly the injector's output |
| Api.InjectAsWritten | src/api.js:29-35 | the unsupported-format error is never thrown |
| Api.Inject | src/api.js:29-35 | unsupported-format iff the readable target is of unknown format; the generic injection error iff the injector reported an error; a successful injection whose write fails throws the write error |
| Api.WrittenOnlyAfterSuccess | src/api.js:111-119 | a write happens only for a known format after the injector reported success, and what is written is its output |
| Api.UnknownFormatSlipsThrough | src/api.js:29-40 | an unrecognised image gets the generic injection error as written and the unsupported-format error as intended |
| CliMain.ExitCode | src/main.js:10-138 | the exit status is 0 exactly after printing the header, after writing, or on an explicit exit 0 |
| CliMain.SegmentArgument | src/main.js:152-156 | commander's default applies only when the flag is absent; a given name, even empty, is passed on |
| CliMain.CliCall | src/main.js:11-71 | an injector call is made iff no header was requested, every file check passes, the guard accepts and the format is known; it carries the file contents, the resource bytes, the overwrite flag and the segment argument |
| CliMain.MainWith | src/main.js:10-138 | header iff requested; exit 1 on file failures; written iff the call succeeded and the write works, with the injector's output; exit 2 iff already-exists; exit 3 iff the switch ran no call or the call failed; codes lie in {1, 2, 3} |
| CliMain.MainAsWritten | src/main.js:45-50 | an unrecognised but readable image exits with 3 |
| CliMain.Main | src/main.js:45-130 | as intended: exit 3 exactly when the injector reported an error; an unrecognised image exits with 1 |
| CliMain.UnknownFormatExitsThree | src/main.js:45-130 | with all probes false, the code as written exits 3 where 1 is intended |
| CliMain.AgreesWithApi | src/main.js:55-137 | with a non-empty segment name, `main` and `inject` make the same call, write the same image, and `main` exits 2 exactly when `inject` throws already-exists |
| CliMain.EmptySegmentNameDiffers | src/main.js:152-156 | an empty segment name reaches the injector from `main` but is replaced by the default in `inject` |
| PyMain.Main | postject.py:236-281 | the header flag anywhere exits 0 with no call; a call is made iff there is no header flag and a format is detected, and it is the shared request for that format; exit 1 iff no format, exit 2 iff the injector refuses, exit 0 otherwise |
| PyMain.HeaderFlagShortCircuits | postject.py:236-240 | the header flag wins even when it stands in the place of the resource name |
| PyMain.SameRequestAsJavaScript | postject.py:246-281 | on an image the PE recogniser rejects, Python makes the same call as the JavaScript front-ends |
| ArgsParser.ExitStatus | src/argsParser.js:39-53 | help exits with 0 (and only help does), too few arguments with 1, and only the callback path has no exit |
| ArgsParser.UserArgs | src/argsParser.js:38 | the arguments after the first two, and none when there are fewer |
| ArgsParser.Split | src/argsParser.js:54-55 | the three positionals are the last three arguments, and the options before them complete the list |
| ArgsParser.Camel | src/argsParser.js:64-66 | the converted key is never longer than the original |
| ArgsParser.CamelHead | src/argsParser.js:64-66 | the first character is kept, or is the upper-cased letter when the key starts with `-` and a lower-case letter |
| ArgsParser.CamelLeavesNoDashLower | src/argsParser.js:64-66 | no `-` followed by a lower-case letter survives the conversion |
| ArgsParser.CamelFixedPoints | src/argsParser.js:64-66 | a key is unchanged exactly when it has no `-` followed by a lower-case letter |
| ArgsParser.CamelIdempotent | src/argsParser.js:64-66 | converting twice is converting once |
| ArgsParser.CamelSplit | src/argsParser.js:64-66 | a key converts piecewise at any point not preceded by `-` |
| ArgsParser.CamelPlain | src/argsParser.js:64-66 | a key with no `-` is unchanged |
| ArgsParser.WordThenJoin | src/argsParser.js:64-66 | a word, then `-` and a lower-case letter: the pair becomes the upper-case letter |
| ArgsParser.CamelCaseKeys | src/argsParser.js:63-69 | the keys are exactly the converted names, and each entry that no later entry shadows is found under its converted name |
| ArgsParser.KeysGrow | src/argsParser.js:63-69 | one more entry adds exactly its converted name to the key set |
| ArgsParser.StoreLast | src/argsParser.js:67-68 | storing the last entry over the table built from the others keeps the table's promises |
| ArgsParser.ArgumentsParser | src/argsParser.js:36-71 | help iff `--help` or `-h` is among the arguments, with the parsed topic; too-few iff not help and fewer than three arguments; otherwise the last three arguments are the positionals and the options are the camel-cased parse of the rest |
| OptionTable.SegmentNameKey | src/argsParser.js:6 | `macho-segment-name` becomes `machoSegmentName` |
| OptionTable.ApiHeaderKey | src/argsParser.js:7 | `output-api-header` becomes `outputApiHeader` |
| OptionTable.TableKeys | src/argsParser.js:4-9 | the two multi-word options land under the names `main` reads |
| OptionTable.TwoEntries | src/argsParser.js:63-69 | two entries with different converted names are both kept |
| OptionTable.TableOptionsReachMain | src/argsParser.js:54-70 | options parsed from the table's keys reach the callback under `machoSegmentName` and `outputApiHeader` |
| LookupApi.OptionsInit | postject-api.h:21-24 | both names start out null |
| LookupApi.SelectQuery | postject-api.h:27-41 | a framework query iff a framework name is given, passing the segment as given (null included); otherwise the given segment or `__POSTJECT`; the section name is always the caller's name unchanged |
| LookupApi.FindResource | postject-api.h:27-48 | on Apple platforms the loader's address for the selected query, with the size stored; elsewhere null, with the size untouched |
| LookupApi.InitialisedOptionsAreDefault | postject-api.h:21-41 | initialised options behave exactly like no options |
| LookupApi.LookupNameIsVerbatim | postject-api.h:27-41 | the lookup adds no `__` prefix, so a bare name misses a section injected under its normalised name |
| LookupApi.FrameworkTakesPrecedence | postject-api.h:31-32 | once a framework is named, the segment is passed through without defaulting |

## Left out

- LIEF itself: parsing, serialising, `Builder`, and the PE `.rsrc` removal followed by the `.l2` rename and second build. These are oracles or not modelled, because they concern the byte layout, not the policy.
- The WebAssembly glue (src/postject_wasm.cpp) is not part of this model.
  - The front-ends' injector is an oracle returning an `InjectResult`, read as the front-ends evidently mean to read it.
  - The glue stores the verdict under the key `type` (line 22), while `api.js` and `main.js` destructure `result`. This mismatch is not modelled.
  - The glue registers the verdict enum as `InjectResultType` (line 81), while src/api.js:58,111 and src/main.js:73,127 read `postject.InjectResult`. With the glue as shown, those comparisons would throw a TypeError. The model reads past this: the front-ends compare against the verdict enum, as evidently meant.
- src/cli.js is not part of this model. It wires `argumentParser` to `inject`; the module exports `argumentsParser`.
- Commander's and argparse's tokenising, and `util.parseArgs`, are oracles: the model starts from the values they produce. The help printer's text and all console output are left out.
- File I/O and process exit are reduced to what each call reports (`Api.Target`, `CliMain.CliFiles`).
  - Python `main` opening the resource file and resolving symlinks is left out.
  - PyMain.Main: takes the injector's verdict as a parameter rather than running `PyInjector`, because the Python injectors work on a file.
- Character handling:
  - Names.PeResourceName: ASCII upper-casing only. JavaScript `toUpperCase` and Python `str.upper` also map non-ASCII letters.
  - The UTF-8 to UTF-16 conversion of PE names (src/postject.cpp:170-172) is left out. Names are compared as strings.
- ELF notes carry only a name and a description; note types are left out.
- ElfInject.ElfPolicy: removes the found note by position. LIEF's `remove` locates the note to delete itself, which can differ only when two notes are identical.
- MachOInject.InjectSlice: removes the first section with the name from the segment `get_segment` finds, which stands for LIEF's `remove_section`. Python removes the signature unconditionally and C++ only when there is one; both end unsigned.
- PyInjector.PyRefill: assumes the language entry keeps its id and accepts the new content after `id_node.delete_child(lang_node)` (postject.py:125-128). LIEF's node owns its children, so the Python handle may then refer to a freed node; what LIEF's bindings do with it is not modelled.
- PyInjector.SortById: an insertion sort, which is stable. LIEF's `sort_by_id` order among equal ids is not modelled.
- Python `inject_into_pe` on an image without a resource tree raises an exception instead of returning; only trees that exist are modelled (`PyPlaceResource` takes the tree). Python parse failures likewise raise and are left out.
- ArgsParser.CamelCaseKeys: returns a map, so the order of `Object.keys` is left out.
- OptionTable: the option names are written by concatenation (`"macho" + "-segment" + "-name"`) so that the verifier does not unroll the conversion over a long literal. They spell the same strings as src/argsParser.js:6-7.
- A run-time lookup on ELF or PE, and any `has_resource` query, are not in this version of postject-api.h (its non-Apple path returns null). They are not part of this model.
- The Mach-O lookup passes the name to the loader verbatim (`LookupApi.LookupNameIsVerbatim`). It does not add the `__` prefix the injector front-ends add; the model follows the header.

## Findings

| source | as written | input that shows it | evidently intended | confidence | as-written member | corrected member |
|---|---|---|---|---|---|---|
| postject.py:67-71 | with `overwrite`, removes the loop variable `note`, which after the loop is the last note of the image | notes [foo, bar], overwrite "foo": "bar" is deleted and the stale "foo" stays | remove `existing_section`, the note found by the search | high, not executed | PyInjector.PyInjectElfAsWritten (PyInjector.PyElfOverwriteRemovesWrongNote) | PyInjector.PyInjectElf |
| postject.py:169-195 | writes the file inside the loop over slices, so a later slice holding the section returns False after the earlier slices were written; each write holds one slice only | a two-slice fat binary whose second slice already holds the section | check every slice first, then write the whole fat binary once | high, not executed | PyInjector.PyInjectMachOAsWritten (PyInjector.PyMachOWritesBeforeRefusing) | PyInjector.PyInjectMachO |
| src/api.js:31-35 | `!executableFormat` tests an embind enum object, which is always truthy, so kUnknown passes the guard, matches no case and throws "Error when injecting resource" (assuming the verdict enum resolves; with the glue as shown the comparison at line 111 throws a TypeError instead, see "Left out") | an image no recogniser accepts | throw "Executable must be a supported format" | medium, not executed | Api.InjectAsWritten (Api.UnknownFormatSlipsThrough) | Api.Inject |
| src/main.js:47-50 | the same guard, so an unrecognised image exits with 3 (injection error), under the same assumption about the verdict enum | an image no recogniser accepts | print the unsupported-format message and exit with 1 | medium, not executed | CliMain.MainAsWritten (CliMain.UnknownFormatExitsThree) | CliMain.Main |

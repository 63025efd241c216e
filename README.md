# NativeHooks: the symbol-interception layer of AndroidNativeEmu

This project is a Dafny model of `NativeHooks`, the class that lets emulated
Android native code call into the host. It covers two parts:

- **Registration.** The constructor asks the trampoline installer (`Hooker`)
  for one trampoline per stub. It then registers ten symbols with the module
  registry. Each symbol resolves to its trampoline's address plus one, so the
  Thumb bit is set.
- **The stubs.** `__system_property_get`, `dlopen`, `dlclose`, `dladdr` and
  `dlsym` are modelled, plus the fail-fast placeholders produced by `nop`.

The collaborators are modelled only as far as the stubs rely on them, each in a
module of its own:

| Dafny module | What it models |
|---|---|
| `MemoryHelpers` | guest memory and `read_utf8` / `write_utf8` / `write_uints` |
| `NativeMemoryModel` | the guest heap's `allocate` |
| `InternalModules` | the module registry: `find_module`, `find_symbol_str`, `Module.find_symbol`, `add_symbol_hook`, loading |
| `HookerModel` | `write_function` |
| `Native.Emulator` | the session's `system_properties` table and `native_memory` heap |

Their source files are not part of this model. Their contracts here state what
`hooks.py` relies on.

## How the model is built

**Guest memory.** Memory is a map from addresses to cells.

- A cell holds either a string stored by `write_utf8` or one word stored by
  `write_uints`. `write_utf8` stores the text followed by a NUL.
- `read_utf8` returns the text up to the first NUL.
- Word `k` of an array starting at `p` lives at `p + 4k`.

**Stub results.** Each stub returns a `StubResult`:

- `Success(Some(w))` when it returns a word;
- `Success(None)` when it returns Python `None`;
- `Failure(e)` when it raises. `e` is one of `PropertyNotFound`,
  `ModuleNotFound`, `NotImplemented` or `SymbolHookNotImplemented`.

**Registration.** The constructor's ten registration lines are kept, in order.
They are split in two groups:

- `AddLoaderHooks`: the loader and property stubs, lines 27–31.
- `AddPlaceholderHooks`: the placeholders, lines 32–36.

Each group is a sequence of `AddHook` steps, one per line. The ghost predicate
`Registered` states what the lines achieve:

- each hook installs its table entry at a fresh, even trampoline bound to the
  entry's callback;
- each hook's address is that trampoline plus one;
- the addresses strictly increase.

`Bindings` gives the trampoline map that results. `BindingsGrow` shows that
registration only adds to it: every trampoline bound earlier keeps its
callback, and exactly one new trampoline is bound per registered symbol.

`RegisteredHooksResolve` then shows that the symbol-hook table maps every name
to its own hook. This holds because no name is registered twice.

**Where the code departs from POSIX `<dlfcn.h>` behaviour, the model follows
the code:**

- `dladdr` writes its record at `addr` rather than at `info`.
- `dladdr` returns `None` when no module contains the address.
- `dlsym` hands the symbol pointer, not its name, to the per-module lookup.
- `dlsym` raises `NotImplementedError` on the found path.

The corrected behaviour is modelled beside the as-written one; see Findings.

## Model

| member | source | states |
|---|---|---|
| MemoryHelpers.ReadUtf8 | androidemu/native/hooks.py:40 | read_utf8 returns a NUL-free prefix of the string stored at the pointer, ending just before its first NUL, and the empty string where no string was written |
| MemoryHelpers.TakeUntilNul | androidemu/native/hooks.py:40 | the string a C reader sees is a NUL-free prefix of the stored text, ending just before the first NUL when there is one |
| MemoryHelpers.Utf8Written | androidemu/native/hooks.py:44 | write_utf8 adds the string's address to memory and leaves every other cell unchanged |
| MemoryHelpers.WordsWritten | androidemu/native/hooks.py:85 | write_uints puts word k at p + 4k; the only new addresses are those slots; every cell outside them is unchanged |
| MemoryHelpers.ReadUtf8StopsAtNul | androidemu/native/hooks.py:84 | a file name written with an extra trailing NUL reads back as the file name itself |
| MemoryHelpers.ReadUtf8AfterWrite | androidemu/native/hooks.py:44 | reading back a NUL-free string written by write_utf8 gives the same string |
| MemoryHelpers.GuestMemory.WriteUtf8 | androidemu/native/hooks.py:44 | the memory afterwards is the old memory with the NUL-terminated string at p |
| MemoryHelpers.GuestMemory.WriteUints | androidemu/native/hooks.py:85 | the memory afterwards is the old memory with the words stored from p |
| NativeMemoryModel.NativeMemory.Allocate | androidemu/native/hooks.py:83 | the returned block starts at the old free address, is the requested size, lies after every earlier block, and is recorded |
| InternalModules.FindSymbol | androidemu/native/hooks.py:101 | a module lookup succeeds exactly when the key is a name the module exports, and then gives that export's address; an integer key never matches |
| InternalModules.FindModule | androidemu/native/hooks.py:96-99 | None exactly when no loaded module has the handle as its base; otherwise the first module, in load order, with that base |
| InternalModules.FindSymbolStr | androidemu/native/hooks.py:93-94 | None exactly when no loaded module exports the name; otherwise the address from the first module that does |
| InternalModules.FirstContaining | androidemu/native/hooks.py:81-82 | None exactly when no module satisfies base <= addr < base + size; otherwise the index of the first module that does |
| InternalModules.HooksAfterAppend | androidemu/native/hooks.py:27-36 | one more add_symbol_hook call overwrites just its own name in the hook table |
| InternalModules.LastHookWins | androidemu/native/hooks.py:27-36 | a hook whose name no later call reuses is what the table holds for that name |
| InternalModules.Modules.AddSymbolHook | androidemu/native/hooks.py:27 | the hook table gains (or overwrites) the name with the address; the table stays the outcome of the recorded calls; loaded modules are unchanged |
| InternalModules.Modules.LoadModule | androidemu/native/hooks.py:57 | the loaded image is appended to the module list; the hooks are unchanged |
| HookerModel.Hooker.WriteFunction | androidemu/native/hooks.py:27-36 | each trampoline is at a fresh, even address that now transfers to the given callback; later trampolines lie above it |
| Native.HookNamesDistinct | androidemu/native/hooks.py:27-36 | no symbol name appears twice among the ten registrations |
| Native.DlClose | androidemu/native/hooks.py:63-70 | dlclose returns 0 for every handle and changes nothing |
| Native.SymbolOutcome | androidemu/native/hooks.py:103-106 | the last step of dlsym returns 0 exactly when no symbol was found, and raises the unimplemented error whenever one was |
| Native.PlaceholdersNameTheirSymbol | androidemu/native/hooks.py:32-36 | each of the five symbols registered after the loader stubs is bound to a placeholder for that same symbol, and invoking it fails naming that symbol |
| Native.InvokeNop | androidemu/native/hooks.py:108-112 | calling a placeholder always fails with the not-implemented error naming its symbol |
| Native.DlSym | androidemu/native/hooks.py:88-106 | dlsym as written: it returns only 0 or fails. With the global handle it returns 0 exactly when no module exports the name and never reports a missing module. With any other handle it fails with ModuleNotFound(symbol) exactly when no module has that base, and otherwise always returns 0 |
| Native.DlSymIntended | androidemu/native/hooks.py:101 | with the name passed to the per-module lookup, a handle of a loaded module returns 0 exactly when that module does not export the name |
| Native.DlSymIntendedAgreesWithGlobal | androidemu/native/hooks.py:93-101 | with the name passed through, a module handle and the global handle give the same outcome for a symbol the module exports |
| Native.DlSymPointerKeyMissesExport | androidemu/native/hooks.py:101 | counterexample: a module exporting "foo" gets 0 from dlsym(module, "foo") as written, while the global search finds it and the corrected lookup finds it too |
| Native.DlOpenHandleResolves | androidemu/native/hooks.py:55-59 | the base returned by dlopen names a loaded module, so dlsym on that handle finds a module and never raises ModuleNotFound |
| Native.DlInfoStored | androidemu/native/hooks.py:84-85 | the memory dladdr leaves: the file name plus both terminators at p, the words {p, base, 0, 0} in the four record slots at the target, and every other cell unchanged |
| Native.DlAddrNameOverrunsBlock | androidemu/native/hooks.py:83-84 | the file-name copy is len(filename) + 2 units long, one more than the len(filename) + 1 units allocated for it |
| Native.DlInfoRecord | androidemu/native/hooks.py:83-85 | the dladdr record reads back as {file name pointer, module base, 0, 0}, and the pointer leads to the module's file name |
| Native.DlAddrRecordMissesInfo | androidemu/native/hooks.py:85 | counterexample: as written, the caller's dl_info buffer keeps its old contents, whereas writing at info fills it |
| Native.RegisteredGrows | androidemu/native/hooks.py:27-36 | binding a further fresh trampoline keeps every earlier registration in place |
| Native.RegisteredInstalls | androidemu/native/hooks.py:27-36 | every registered hook carries its entry's name, and sits one above a fresh trampoline bound to the entry's callback |
| Native.RegisteredIncreasing | androidemu/native/hooks.py:27-36 | registered hooks sit at strictly increasing, hence distinct, addresses |
| Native.RegisteredHooksResolve | androidemu/native/hooks.py:27-36 | after the whole table is registered, the hook table maps each of the ten names to its own hook's address |
| Native.LastTrampolineFresh | androidemu/native/hooks.py:27-36 | the trampoline behind the newest hook was bound by none of the earlier registration steps |
| Native.BindingsKeys | androidemu/native/hooks.py:27-36 | the bound trampolines are those bound before plus one per registered hook |
| Native.BindingsGrow | androidemu/native/hooks.py:27-36 | registration keeps every earlier trampoline's callback and binds exactly one new trampoline per hook |
| Native.AddHook | androidemu/native/hooks.py:27 | one registration line returns the hook address, which is odd and one above a fresh trampoline. Only that trampoline is bound, to the callback. The hook table gains the name at that address, and the log gains exactly that hook, keeping every earlier entry |
| Native.AddLoaderHooks | androidemu/native/hooks.py:27-31 | __system_property_get, dlopen, dlclose, dladdr and dlsym are registered, in that order. Exactly five hooks are appended to the earlier ones, and the trampoline map is the one those registrations build |
| Native.AddPlaceholderHooks | androidemu/native/hooks.py:32-36 | pthread_create, pthread_join, vfprintf, fprintf and dlerror are registered to fail-fast placeholders, in that order. Exactly five hooks are appended to the earlier ones, and the trampoline map is the one those registrations build |
| Native.NativeHooks.constructor | androidemu/native/hooks.py:21-36 | the fields are stored and atexit is empty. The ten symbols are each registered once, in order, at distinct trampolines plus one bound to their callbacks. Every earlier trampoline keeps its callback, and exactly ten are added. The hook table maps each name to its hook. Loaded modules are unchanged |
| Native.NativeHooks.SystemPropertyGet | androidemu/native/hooks.py:38-48 | on a hit the value is written at the buffer, reads back as the value, and None is returned; on a miss PropertyNotFound(name) is raised and memory is unchanged |
| Native.NativeHooks.DlOpen | androidemu/native/hooks.py:50-61 | only "libvendorconn.so" is loaded, and its base is returned as the handle; any other path returns None and loads nothing; hooks are never touched |
| Native.NativeHooks.DlAddr | androidemu/native/hooks.py:72-86 | dladdr as written: with the first module containing addr, it allocates len(filename)+1 bytes at the old free address, writes filename+NUL there, moves the heap's free address past the block, writes {pointer, base, 0, 0} at addr, and returns 1. With no module it returns None and changes neither memory nor heap |
| Native.NativeHooks.DlAddrIntended | androidemu/native/hooks.py:81-86 | dladdr with the record written at info and a defined 0 on a miss; otherwise the same as DlAddr |

## Left out

- Logging (`logger.debug`) is not modelled. It has no effect on results.
- The `native_method` calling convention is not modelled. The stubs take their
  arguments directly; how arguments come out of registers and how the return
  value goes back is not modelled.
- Resolving the library path in `dlopen` (`os.path.realpath`/`join`) is not
  modelled.
- Loading a library in `dlopen` is not modelled. ELF mapping, relocation and
  init code are left out. The module the loader would build is a parameter
  (`image`), so `DlOpen` only appends it to the module list.
- The emulator session (`self._emu`) is modelled only by the `Emulator` class:
  its `system_properties` table and its `native_memory` heap. The stubs read the
  table on every call, as the source does. Library loading goes straight to the
  module registry.
- `self._memory` is stored as `memory`, but no stub uses it.
- Faults in the memory helpers are not modelled. In the program, `read_utf8`,
  `write_utf8` and `write_uints` act on emulator memory (lines 40, 44, 52, 84,
  85 and 90). They can raise on an unmapped pointer or on bytes that are not
  valid UTF-8, and that error leaves the stub. In the model every address can
  be read and written, and every read decodes.
- The reads at the start of `dladdr` (`read_uints(info, 4)`, `Dl_info`,
  `isfind`) are not modelled. Nothing uses their results.
- Guest memory is not byte-accurate. Cells are keyed by start address, so
  overlapping writes to neighbouring bytes are not modelled. Reading a word cell
  as a string yields the empty string.
- Words are unbounded integers. Truncation to 32 bits in `write_uints` is not
  modelled.
- The file-name copy in `dladdr` overruns its block, and the model does not show
  what it overwrites. Line 83 allocates `len(filename) + 1` units. Line 84
  writes `filename + '\x00'`, and `write_utf8` appends its own terminator, so
  `len(filename) + 2` units are written (`DlAddrNameOverrunsBlock`). For an
  ASCII name that is one byte past the block. For a non-ASCII name it is more,
  since `len` counts code points and the write is UTF-8 bytes. Cells are keyed
  by start address, so the overrun into the next block is not visible here.
- Error messages are not modelled. Errors are variants carrying the named value
  (`ModuleNotFound` carries `symbol`, as the message on line 99 does).
- The internals of the registry, the heap allocator and the trampoline installer
  are not modelled. Their source files are not part of this model, and each is
  reduced to a contract.

## Findings

| source | as written | input that shows it | evidently intended | confidence | as-written member | corrected member |
|---|---|---|---|---|---|---|
| androidemu/native/hooks.py:101 | `module.find_symbol(symbol)` passes the pointer `symbol`, not the name `symbol_str`, to a table keyed by names | module at 0x1000 exporting "foo"; "foo" stored at 0x10; `dlsym(0x1000, 0x10)` returns 0, while `dlsym(0xffffffff, 0x10)` finds it | `module.find_symbol(symbol_str)`, so a specific handle and the global handle agree on an exported symbol | not executed | Native.DlSymPointerKeyMissesExport | Native.DlSymIntendedAgreesWithGlobal |
| androidemu/native/hooks.py:85 | `write_uints(uc, addr, ...)` writes the dl_info record over the queried code address | module at 0x1000 with size 0x100, `dladdr(0x1010, 0x3000)`: the word at 0x3000 keeps its old value 7, and words are written at 0x1010 | `write_uints(uc, info, ...)`, filling the caller's dl_info | not executed | Native.DlAddrRecordMissesInfo | Native.NativeHooks.DlAddrIntended |

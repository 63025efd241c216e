/**
 * NativeHooks: host stand-ins for the dynamic-loader entry points (dlopen,
 * dlclose, dladdr, dlsym) and for Android's __system_property_get, together
 * with the registration that makes each of them a Thumb call target for the
 * emulated code.
 */
module Native {
  import opened Wrappers
  import opened MemoryHelpers
  import opened NativeMemoryModel
  import opened InternalModules
  import opened HookerModel

  /** The dlsym handle that asks for a search of every loaded module. */
  const GlobalHandle: int := 0xffffffff

  /** The one library name dlopen agrees to load. */
  const AllowedLibrary: string := "libvendorconn.so"

  /** The exceptions the stubs raise. */
  datatype Error =
    | PropertyNotFound(name: string)             // ValueError naming the property
    | ModuleNotFound(address: int)               // Exception naming an address
    | NotImplemented                             // NotImplementedError without a message
    | SymbolHookNotImplemented(symbol: string)   // NotImplementedError naming the symbol

  /** What a stub hands back: a word, nothing at all (Python None), or a raised error. */
  type StubResult = Result<Option<int>, Error>

  /** The loader and property stubs bound at construction, in registration order. */
  const LoaderHooks: seq<(string, Callback)> := [
    ("__system_property_get", PropertyGetFn),
    ("dlopen", DlOpenFn),
    ("dlclose", DlCloseFn),
    ("dladdr", DlAddrFn),
    ("dlsym", DlSymFn)
  ]

  /** The fail-fast placeholders bound after them. */
  const PlaceholderHooks: seq<(string, Callback)> := [
    ("pthread_create", NopFn("pthread_create")),
    ("pthread_join", NopFn("pthread_join")),
    ("vfprintf", NopFn("vfprintf")),
    ("fprintf", NopFn("fprintf")),
    ("dlerror", NopFn("dlerror"))
  ]

  /** Every symbol bound at construction, with its callback, in registration order. */
  const HookTable: seq<(string, Callback)> := LoaderHooks + PlaceholderHooks

  /** No symbol appears twice in the table, so each one is registered exactly once. */
  lemma HookNamesDistinct()
    ensures forall i, j :: 0 <= i < j < |HookTable| ==> HookTable[i].0 != HookTable[j].0
  {
  }

  /**
   * The hook h installs the table entry: it carries the entry's name, and its
   * address is one past (Thumb bit set) a trampoline that was not there before
   * and now transfers to the entry's callback.
   */
  ghost predicate Installs(h: SymbolHook, entry: (string, Callback), before: map<int, Callback>, after: map<int, Callback>) {
    && h.name == entry.0
    && h.address % 2 == 1
    && h.address - 1 !in before
    && h.address - 1 in after && after[h.address - 1] == entry.1
  }

  /** dlclose: no reference counting and no unmapping; every handle is closed successfully. */
  function DlClose(handle: int): (r: StubResult)
    ensures r == Success(Some(0))
  {
    Success(Some(0))
  }

  /**
   * Every symbol registered after the loader stubs is bound to a placeholder
   * for that same symbol, so invoking it fails naming the symbol.
   */
  lemma PlaceholdersNameTheirSymbol()
    ensures forall i :: |LoaderHooks| <= i < |HookTable| ==> HookTable[i].1 == NopFn(HookTable[i].0)
    ensures forall i :: |LoaderHooks| <= i < |HookTable| ==>
              InvokeNop(HookTable[i].1.symbol) == Failure(SymbolHookNotImplemented(HookTable[i].0))
  {
  }

  /** Calling any of the placeholder stubs (nop) fails, naming the symbol. */
  function InvokeNop(symbol: string): (r: StubResult)
    ensures r.Failure? && r.error.SymbolHookNotImplemented? && r.error.symbol == symbol
  {
    Failure(SymbolHookNotImplemented(symbol))
  }

  /** The last step of dlsym: an unresolved symbol is the null address, a resolved one is not supported. */
  function SymbolOutcome(sym: Option<int>): (r: StubResult)
    ensures r == Success(Some(0)) <==> sym.None?
    ensures sym.Some? ==> r == Failure(NotImplemented)
  {
    if sym.None? then Success(Some(0)) else Failure(NotImplemented)
  }

  /**
   * dlsym as written: the per-module lookup is handed the pointer `symbol`
   * rather than the name read from it.
   */
  function DlSym(cells: Cells, mods: seq<Module>, handle: int, symbol: int): (r: StubResult)
    ensures r.Success? ==> r.value == Some(0)
    ensures r.Failure? ==> r.error == NotImplemented || r.error == ModuleNotFound(symbol)
    ensures handle == GlobalHandle ==>
      (r == Success(Some(0)) <==> forall i :: 0 <= i < |mods| ==> ReadUtf8(cells, symbol) !in mods[i].symbols)
    ensures handle == GlobalHandle ==> r != Failure(ModuleNotFound(symbol))
    ensures handle != GlobalHandle ==>
      (r == Failure(ModuleNotFound(symbol)) <==> forall i :: 0 <= i < |mods| ==> mods[i].base != handle)
    ensures handle != GlobalHandle && (exists i :: 0 <= i < |mods| && mods[i].base == handle) ==>
      r == Success(Some(0))
  {
    var name := ReadUtf8(cells, symbol);
    if handle == GlobalHandle then
      SymbolOutcome(FindSymbolStr(mods, name))
    else
      match FindModule(mods, handle)
      case None => Failure(ModuleNotFound(symbol))
      case Some(m) => SymbolOutcome(FindSymbol(m, IntKey(symbol)))
  }

  /** dlsym with the per-module lookup given the symbol's name, as evidently intended. */
  function DlSymIntended(cells: Cells, mods: seq<Module>, handle: int, symbol: int): (r: StubResult)
    ensures r.Success? ==> r.value == Some(0)
    ensures handle == GlobalHandle ==>
      (r == Success(Some(0)) <==> forall i :: 0 <= i < |mods| ==> ReadUtf8(cells, symbol) !in mods[i].symbols)
    ensures handle == GlobalHandle ==> r != Failure(ModuleNotFound(symbol))
    ensures handle != GlobalHandle ==>
      (r == Failure(ModuleNotFound(symbol)) <==> forall i :: 0 <= i < |mods| ==> mods[i].base != handle)
    ensures handle != GlobalHandle && FindModule(mods, handle).Some? ==>
      (r == Success(Some(0)) <==> ReadUtf8(cells, symbol) !in FindModule(mods, handle).value.symbols)
  {
    var name := ReadUtf8(cells, symbol);
    if handle == GlobalHandle then
      SymbolOutcome(FindSymbolStr(mods, name))
    else
      match FindModule(mods, handle)
      case None => Failure(ModuleNotFound(symbol))
      case Some(m) => SymbolOutcome(FindSymbol(m, NameKey(name)))
  }

  /**
   * With the name passed through, looking a symbol up in the module that
   * exports it gives the same outcome as the global search.
   */
  lemma DlSymIntendedAgreesWithGlobal(cells: Cells, mods: seq<Module>, handle: int, symbol: int)
    requires handle != GlobalHandle
    requires FindModule(mods, handle).Some?
    requires ReadUtf8(cells, symbol) in FindModule(mods, handle).value.symbols
    ensures DlSymIntended(cells, mods, handle, symbol) == DlSymIntended(cells, mods, GlobalHandle, symbol)
    ensures DlSymIntended(cells, mods, handle, symbol) == Failure(NotImplemented)
  {
  }

  /** A concrete call showing that, as written, a symbol the module exports is reported missing. */
  lemma DlSymPointerKeyMissesExport()
    ensures var cells := Utf8Written(map[], 0x10, "foo");
            var mods := [Module(0x1000, 0x100, "libfoo.so", map["foo" := 0x1010])];
            && DlSym(cells, mods, 0x1000, 0x10) == Success(Some(0))
            && DlSym(cells, mods, GlobalHandle, 0x10) == Failure(NotImplemented)
            && DlSymIntended(cells, mods, 0x1000, 0x10) == Failure(NotImplemented)
  {
    ReadUtf8AfterWrite(map[], 0x10, "foo");
  }

  /**
   * A handle returned by dlopen names a loaded module, so dlsym on it finds a
   * module instead of raising (and, as written, then reports the symbol missing).
   */
  lemma DlOpenHandleResolves(mods: seq<Module>, image: Module, cells: Cells, symbol: int)
    requires image.base != GlobalHandle
    ensures FindModule(mods + [image], image.base).Some?
    ensures FindModule(mods + [image], image.base).value.base == image.base
    ensures DlSym(cells, mods + [image], image.base, symbol) == Success(Some(0))
  {
    assert (mods + [image])[|mods|].base == image.base;
  }

  /** What dladdr leaves in memory: the file name at p, then the 4-word dl_info record at `at`. */
  function DlInfoStored(c: Cells, at: int, p: int, m: Module): (d: Cells)
    ensures forall a :: a in d <==> a in c || a == p || IsSlot(a, at, 4)
    ensures forall a :: a in c && a != p && !IsSlot(a, at, 4) ==> d[a] == c[a]
    ensures !IsSlot(p, at, 4) ==> d[p] == Utf8(m.filename + [NUL] + [NUL])
    ensures forall k :: 0 <= k < 4 ==> Slot(at, k) in d && d[Slot(at, k)] == Word([p, m.base, 0, 0][k])
  {
    WordsWritten(Utf8Written(c, p, m.filename + [NUL]), at, [p, m.base, 0, 0])
  }

  /**
   * The file name copy is one unit longer than the block allocated for it: the
   * name with its explicit NUL fills the len(filename) + 1 units, and write_utf8
   * appends its own terminator after them.
   */
  lemma DlAddrNameOverrunsBlock(c: Cells, at: int, p: int, m: Module)
    requires !IsSlot(p, at, 4)
    ensures p in DlInfoStored(c, at, p, m) && DlInfoStored(c, at, p, m)[p].Utf8?
    ensures |DlInfoStored(c, at, p, m)[p].text| == Block(p, |m.filename| + 1).size + 1
  {
  }

  /**
   * The record written by dladdr reads back as {file name pointer, module base,
   * 0, 0}, and its first word points to the module's NUL-terminated file name.
   */
  lemma DlInfoRecord(c: Cells, at: int, p: int, m: Module)
    requires NUL !in m.filename
    requires !IsSlot(p, at, 4)
    ensures var d := DlInfoStored(c, at, p, m);
            && Slot(at, 0) in d && d[Slot(at, 0)] == Word(p)
            && Slot(at, 1) in d && d[Slot(at, 1)] == Word(m.base)
            && Slot(at, 2) in d && d[Slot(at, 2)] == Word(0)
            && Slot(at, 3) in d && d[Slot(at, 3)] == Word(0)
            && ReadUtf8(d, p) == m.filename
  {
    var ws := [p, m.base, 0, 0];
    var u := Utf8Written(c, p, m.filename + [NUL]);
    ReadUtf8StopsAtNul(c, p, m.filename, [NUL]);
    assert ws[0] == p && ws[1] == m.base && ws[2] == 0 && ws[3] == 0;
    assert u[p] == DlInfoStored(c, at, p, m)[p];
  }

  /** A concrete call showing that, as written, the caller's dl_info at `info` is left untouched. */
  lemma DlAddrRecordMissesInfo()
    ensures var before := map[0x3000 := Word(7)];
            var m := Module(0x1000, 0x100, "libfoo.so", map[]);
            && Contains(m, 0x1010)
            && DlInfoStored(before, 0x1010, 0x5000, m)[0x3000] == Word(7)
            && DlInfoStored(before, 0x3000, 0x5000, m)[0x3000] == Word(0x5000)
  {
  }

  /**
   * The hooks `added` install the `entries`, in order, starting from the
   * trampoline map `bound0`: each at a fresh trampoline now bound to its entry's
   * callback, each at a higher address than the one before.
   */
  ghost predicate Registered(bound0: map<int, Callback>, entries: seq<(string, Callback)>, added: seq<SymbolHook>,
                             bound: map<int, Callback>)
    decreases |added|
  {
    && |added| == |entries|
    && bound0.Keys <= bound.Keys
    && (added != [] ==>
          && Installs(added[|added| - 1], entries[|added| - 1], bound0, bound)
          && (|added| > 1 ==> added[|added| - 2].address < added[|added| - 1].address)
          && Registered(bound0, entries[..|added| - 1], added[..|added| - 1], bound))
  }

  /** Binding one more fresh trampoline keeps every earlier registration in place. */
  lemma {:induction false} RegisteredGrows(bound0: map<int, Callback>, entries: seq<(string, Callback)>,
                                           added: seq<SymbolHook>, bound: map<int, Callback>, a: int, cb: Callback)
    requires Registered(bound0, entries, added, bound)
    requires a !in bound
    ensures Registered(bound0, entries, added, bound[a := cb])
    decreases |added|
  {
    if added != [] {
      RegisteredGrows(bound0, entries[..|added| - 1], added[..|added| - 1], bound, a, cb);
    }
  }

  /** Every registered hook installs its own entry. */
  lemma {:induction false} RegisteredInstalls(bound0: map<int, Callback>, entries: seq<(string, Callback)>,
                                              added: seq<SymbolHook>, bound: map<int, Callback>, i: nat)
    requires Registered(bound0, entries, added, bound)
    requires i < |added|
    ensures Installs(added[i], entries[i], bound0, bound)
    decreases |added|
  {
    if i < |added| - 1 {
      RegisteredInstalls(bound0, entries[..|added| - 1], added[..|added| - 1], bound, i);
    }
  }

  /** Registered hooks sit at strictly increasing, hence pairwise distinct, addresses. */
  lemma {:induction false} RegisteredIncreasing(bound0: map<int, Callback>, entries: seq<(string, Callback)>,
                                                added: seq<SymbolHook>, bound: map<int, Callback>, i: nat, j: nat)
    requires Registered(bound0, entries, added, bound)
    requires i < j < |added|
    ensures added[i].address < added[j].address
    decreases |added|
  {
    var n := |added|;
    var init := added[..n - 1];
    assert Registered(bound0, entries[..n - 1], init, bound);
    if j < n - 1 {
      RegisteredIncreasing(bound0, entries[..n - 1], init, bound, i, j);
    } else if i < n - 2 {
      RegisteredIncreasing(bound0, entries[..n - 1], init, bound, i, n - 2);
    }
  }

  /**
   * Once the whole table is registered after the calls `log0`, the symbol-hook
   * table maps each of its names to the hook registered for it: no name is
   * registered twice, so no later call overwrites it.
   */
  lemma RegisteredHooksResolve(log0: seq<SymbolHook>, bound0: map<int, Callback>, added: seq<SymbolHook>,
                               bound: map<int, Callback>, i: nat)
    requires Registered(bound0, HookTable, added, bound)
    requires i < |HookTable|
    ensures HookTable[i].0 in HooksAfter(map[], log0 + added)
    ensures HooksAfter(map[], log0 + added)[HookTable[i].0] == added[i].address
  {
    HookNamesDistinct();
    var log := log0 + added;
    var k := |log0| + i;
    RegisteredInstalls(bound0, HookTable, added, bound, i);
    forall j | k < j < |log|
      ensures log[j].name != log[k].name
    {
      RegisteredInstalls(bound0, HookTable, added, bound, j - |log0|);
      assert log[j] == added[j - |log0|];
    }
    assert log[k] == added[i];
    LastHookWins(map[], log, k);
  }

  /**
   * The trampoline map after the hooks `added` were installed for `entries`,
   * one write_function call each, starting from `bound0`.
   */
  ghost function Bindings(bound0: map<int, Callback>, entries: seq<(string, Callback)>, added: seq<SymbolHook>)
    : map<int, Callback>
    requires |entries| == |added|
    decreases |added|
  {
    if added == [] then bound0
    else
      var n := |added|;
      Bindings(bound0, entries[..n - 1], added[..n - 1])[added[n - 1].address - 1 := entries[n - 1].1]
  }

  /** The trampolines behind the hooks: each hook's address without its Thumb bit. */
  ghost function Trampolines(added: seq<SymbolHook>): set<int> {
    set i | 0 <= i < |added| :: added[i].address - 1
  }

  /** The installed trampolines are the ones bound before plus one per hook. */
  lemma {:induction false} BindingsKeys(bound0: map<int, Callback>, entries: seq<(string, Callback)>,
                                        added: seq<SymbolHook>)
    requires |entries| == |added|
    ensures Bindings(bound0, entries, added).Keys == bound0.Keys + Trampolines(added)
    decreases |added|
  {
    if added != [] {
      var n := |added|;
      BindingsKeys(bound0, entries[..n - 1], added[..n - 1]);
      assert forall i :: 0 <= i < n - 1 ==> added[..n - 1][i] == added[i];
      assert Trampolines(added) == Trampolines(added[..n - 1]) + {added[n - 1].address - 1};
    }
  }

  /** The trampoline behind the last registered hook is bound by none of the earlier steps. */
  lemma LastTrampolineFresh(bound0: map<int, Callback>, entries: seq<(string, Callback)>,
                            added: seq<SymbolHook>, bound: map<int, Callback>)
    requires Registered(bound0, entries, added, bound)
    requires added != []
    ensures added[|added| - 1].address - 1 !in Bindings(bound0, entries[..|added| - 1], added[..|added| - 1])
  {
    var n := |added|;
    var k := added[n - 1].address - 1;
    var init := added[..n - 1];
    BindingsKeys(bound0, entries[..n - 1], init);
    forall i | 0 <= i < n - 1
      ensures init[i].address - 1 != k
    {
      RegisteredIncreasing(bound0, entries, added, bound, i, n - 1);
    }
  }

  /**
   * Registration only adds trampolines: every one bound before keeps its
   * callback, and each registered hook brings exactly one new trampoline.
   */
  lemma {:induction false} BindingsGrow(bound0: map<int, Callback>, entries: seq<(string, Callback)>,
                                        added: seq<SymbolHook>, bound: map<int, Callback>)
    requires Registered(bound0, entries, added, bound)
    ensures forall a :: a in bound0 ==> a in Bindings(bound0, entries, added)
                                        && Bindings(bound0, entries, added)[a] == bound0[a]
    ensures |Bindings(bound0, entries, added).Keys| == |bound0.Keys| + |added|
    decreases |added|
  {
    if added != [] {
      var n := |added|;
      var k := added[n - 1].address - 1;
      var prev := Bindings(bound0, entries[..n - 1], added[..n - 1]);
      BindingsGrow(bound0, entries[..n - 1], added[..n - 1], bound);
      LastTrampolineFresh(bound0, entries, added, bound);
      assert prev[k := entries[n - 1].1].Keys == prev.Keys + {k};
    }
  }

  /**
   * One registration line: install a trampoline for the callback, then record
   * the symbol at the trampoline's address with the Thumb bit set. The ghost
   * parameters carry what the earlier lines registered since `log0`/`bound0`.
   */
  method AddHook(modules: Modules, hooker: Hooker, name: string, callback: Callback,
                 ghost log0: seq<SymbolHook>, ghost bound0: map<int, Callback>,
                 ghost entries: seq<(string, Callback)>, ghost added: seq<SymbolHook>)
    returns (address: int, ghost entries': seq<(string, Callback)>, ghost added': seq<SymbolHook>)
    requires modules.Valid() && hooker.Valid()
    requires modules.hookLog == log0 + added
    requires Registered(bound0, entries, added, hooker.bound)
    requires hooker.bound == Bindings(bound0, entries, added)
    modifies modules, hooker
    ensures modules.Valid() && hooker.Valid()
    ensures entries' == entries + [(name, callback)]
    ensures |added'| == |added| + 1 && added'[..|added|] == added && added'[|added|] == SymbolHook(name, address)
    ensures modules.hookLog == log0 + added'
    ensures modules.symbolHooks == old(modules.symbolHooks)[name := address]
    ensures address % 2 == 1 && address - 1 !in old(hooker.bound)
    ensures hooker.bound == old(hooker.bound)[address - 1 := callback]
    ensures Registered(bound0, entries', added', hooker.bound)
    ensures hooker.bound == Bindings(bound0, entries', added')
    ensures modules.modules == old(modules.modules)
  {
    if added != [] {
      RegisteredInstalls(bound0, entries, added, hooker.bound, |added| - 1);
    }
    RegisteredGrows(bound0, entries, added, hooker.bound, hooker.next, callback);
    var trampoline := hooker.WriteFunction(callback);
    modules.AddSymbolHook(name, trampoline + 1);
    entries' := entries + [(name, callback)];
    address := trampoline + 1;
    added' := added + [SymbolHook(name, address)];
    assert entries'[..|added|] == entries && added'[..|added|] == added;
  }

  /** Five single appends make one append of five. */
  lemma AppendFive(e: seq<(string, Callback)>, t: seq<(string, Callback)>)
    requires |t| == 5
    ensures e + [t[0]] + [t[1]] + [t[2]] + [t[3]] + [t[4]] == e + t
  {
  }

  /** A prefix of a prefix is a prefix. */
  lemma PrefixOfPrefix(a: seq<SymbolHook>, b: seq<SymbolHook>, c: seq<SymbolHook>)
    requires |a| <= |b| <= |c| && c[..|b|] == b && b[..|a|] == a
    ensures c[..|a|] == a
  {
  }

  /** Registration lines for the loader and property stubs. */
  method AddLoaderHooks(modules: Modules, hooker: Hooker,
                        ghost log0: seq<SymbolHook>, ghost bound0: map<int, Callback>,
                        ghost entries: seq<(string, Callback)>, ghost added: seq<SymbolHook>)
    returns (ghost entries': seq<(string, Callback)>, ghost added': seq<SymbolHook>)
    requires modules.Valid() && hooker.Valid()
    requires modules.hookLog == log0 + added
    requires Registered(bound0, entries, added, hooker.bound)
    requires hooker.bound == Bindings(bound0, entries, added)
    modifies modules, hooker
    ensures modules.Valid() && hooker.Valid()
    ensures entries' == entries + LoaderHooks
    ensures |added'| == |added| + |LoaderHooks| && added'[..|added|] == added
    ensures modules.hookLog == log0 + added'
    ensures Registered(bound0, entries', added', hooker.bound)
    ensures hooker.bound == Bindings(bound0, entries', added')
    ensures modules.modules == old(modules.modules)
  {
    var address;
    address, entries', added' := AddHook(modules, hooker, "__system_property_get", PropertyGetFn, log0, bound0, entries, added);
    ghost var s1 := added';
    address, entries', added' := AddHook(modules, hooker, "dlopen", DlOpenFn, log0, bound0, entries', added');
    PrefixOfPrefix(added, s1, added');
    ghost var s2 := added';
    address, entries', added' := AddHook(modules, hooker, "dlclose", DlCloseFn, log0, bound0, entries', added');
    PrefixOfPrefix(added, s2, added');
    ghost var s3 := added';
    address, entries', added' := AddHook(modules, hooker, "dladdr", DlAddrFn, log0, bound0, entries', added');
    PrefixOfPrefix(added, s3, added');
    ghost var s4 := added';
    address, entries', added' := AddHook(modules, hooker, "dlsym", DlSymFn, log0, bound0, entries', added');
    PrefixOfPrefix(added, s4, added');
    AppendFive(entries, LoaderHooks);
  }

  /** Registration lines for the fail-fast placeholders. */
  method AddPlaceholderHooks(modules: Modules, hooker: Hooker,
                             ghost log0: seq<SymbolHook>, ghost bound0: map<int, Callback>,
                             ghost entries: seq<(string, Callback)>, ghost added: seq<SymbolHook>)
    returns (ghost entries': seq<(string, Callback)>, ghost added': seq<SymbolHook>)
    requires modules.Valid() && hooker.Valid()
    requires modules.hookLog == log0 + added
    requires Registered(bound0, entries, added, hooker.bound)
    requires hooker.bound == Bindings(bound0, entries, added)
    modifies modules, hooker
    ensures modules.Valid() && hooker.Valid()
    ensures entries' == entries + PlaceholderHooks
    ensures |added'| == |added| + |PlaceholderHooks| && added'[..|added|] == added
    ensures modules.hookLog == log0 + added'
    ensures Registered(bound0, entries', added', hooker.bound)
    ensures hooker.bound == Bindings(bound0, entries', added')
    ensures modules.modules == old(modules.modules)
  {
    var address;
    address, entries', added' := AddHook(modules, hooker, "pthread_create", NopFn("pthread_create"), log0, bound0, entries, added);
    ghost var s1 := added';
    address, entries', added' := AddHook(modules, hooker, "pthread_join", NopFn("pthread_join"), log0, bound0, entries', added');
    PrefixOfPrefix(added, s1, added');
    ghost var s2 := added';
    address, entries', added' := AddHook(modules, hooker, "vfprintf", NopFn("vfprintf"), log0, bound0, entries', added');
    PrefixOfPrefix(added, s2, added');
    ghost var s3 := added';
    address, entries', added' := AddHook(modules, hooker, "fprintf", NopFn("fprintf"), log0, bound0, entries', added');
    PrefixOfPrefix(added, s3, added');
    ghost var s4 := added';
    address, entries', added' := AddHook(modules, hooker, "dlerror", NopFn("dlerror"), log0, bound0, entries', added');
    PrefixOfPrefix(added, s4, added');
    AppendFive(entries, PlaceholderHooks);
  }

  /** The parts of the emulator session the stubs consult. */
  class Emulator {
    /** The session's system_properties dictionary, which it may change at any time. */
    var systemProperties: map<string, string>
    /** The session's guest heap (native_memory). */
    const nativeMemory: NativeMemory

    constructor(properties: map<string, string>, heap: NativeMemory)
      ensures systemProperties == properties && nativeMemory == heap
    {
      systemProperties := properties;
      nativeMemory := heap;
    }
  }

  class NativeHooks {
    const emu: Emulator
    /** Stored at construction and not used by any stub. */
    const memory: NativeMemory
    const modules: Modules
    var atexit: seq<int>

    /** Registration: one add_symbol_hook per HookTable entry, in order, each at a trampoline address plus one. */
    constructor(emu: Emulator, memory: NativeMemory, modules: Modules, hooker: Hooker)
      requires modules.Valid() && hooker.Valid()
      modifies modules, hooker
      ensures this.emu == emu && this.memory == memory && this.modules == modules && atexit == []
      ensures modules.Valid() && hooker.Valid()
      ensures modules.modules == old(modules.modules)
      ensures |modules.hookLog| == |old(modules.hookLog)| + |HookTable|
      ensures var added := modules.hookLog[|old(modules.hookLog)|..];
        && modules.hookLog == old(modules.hookLog) + added
        && Registered(old(hooker.bound), HookTable, added, hooker.bound)
        && hooker.bound == Bindings(old(hooker.bound), HookTable, added)
        && forall i :: 0 <= i < |added| ==>
             HookTable[i].0 in modules.symbolHooks && modules.symbolHooks[HookTable[i].0] == added[i].address
      ensures forall a :: a in old(hooker.bound) ==> a in hooker.bound && hooker.bound[a] == old(hooker.bound)[a]
      ensures |hooker.bound.Keys| == |old(hooker.bound).Keys| + |HookTable|
    {
      this.emu := emu;
      this.memory := memory;
      this.modules := modules;
      atexit := [];
      new;
      ghost var log0, bound0 := modules.hookLog, hooker.bound;
      ghost var entries: seq<(string, Callback)>, added: seq<SymbolHook> := [], [];
      assert modules.hookLog == log0 + added;
      entries, added := AddLoaderHooks(modules, hooker, log0, bound0, entries, added);
      entries, added := AddPlaceholderHooks(modules, hooker, log0, bound0, entries, added);
      assert entries == HookTable;
      assert modules.hookLog[|log0|..] == added;
      forall i | 0 <= i < |added|
        ensures HookTable[i].0 in modules.symbolHooks && modules.symbolHooks[HookTable[i].0] == added[i].address
      {
        RegisteredHooksResolve(log0, bound0, added, hooker.bound, i);
      }
      BindingsGrow(bound0, HookTable, added, hooker.bound);
    }

    /** __system_property_get: copy the named property's value into the caller's buffer. */
    method SystemPropertyGet(uc: GuestMemory, namePtr: int, bufPtr: int) returns (r: StubResult)
      modifies uc
      ensures var name := ReadUtf8(old(uc.cells), namePtr);
        && (name in emu.systemProperties ==>
              r == Success(None) && uc.cells == Utf8Written(old(uc.cells), bufPtr, emu.systemProperties[name]))
        && (name !in emu.systemProperties ==>
              r == Failure(PropertyNotFound(name)) && uc.cells == old(uc.cells))
      ensures var name := ReadUtf8(old(uc.cells), namePtr);
        name in emu.systemProperties && NUL !in emu.systemProperties[name] ==>
          ReadUtf8(uc.cells, bufPtr) == emu.systemProperties[name]
    {
      var name := ReadUtf8(uc.cells, namePtr);
      if name in emu.systemProperties {
        uc.WriteUtf8(bufPtr, emu.systemProperties[name]);
        if NUL !in emu.systemProperties[name] {
          ReadUtf8AfterWrite(old(uc.cells), bufPtr, emu.systemProperties[name]);
        }
      } else {
        return Failure(PropertyNotFound(name));
      }
      return Success(None);
    }

    /**
     * dlopen: only the allow-listed library is loaded; the handle is its base.
     * `image` is the module the loader builds when it maps that library.
     */
    method DlOpen(uc: GuestMemory, path: int, image: Module) returns (r: StubResult)
      requires modules.Valid()
      modifies modules
      ensures modules.Valid()
      ensures ReadUtf8(uc.cells, path) == AllowedLibrary ==>
        r == Success(Some(image.base)) && modules.modules == old(modules.modules) + [image]
      ensures ReadUtf8(uc.cells, path) != AllowedLibrary ==>
        r == Success(None) && modules.modules == old(modules.modules)
      ensures modules.symbolHooks == old(modules.symbolHooks) && modules.hookLog == old(modules.hookLog)
    {
      var name := ReadUtf8(uc.cells, path);
      if name == AllowedLibrary {
        var m := modules.LoadModule(image);
        return Success(Some(m.base));
      }
      return Success(None);
    }

    /**
     * dladdr as written: the first module containing addr gets its file name
     * copied to a fresh block, and the record is written at addr, not at info.
     * With no such module the loop ends and nothing is returned.
     */
    method DlAddr(uc: GuestMemory, addr: int, info: int) returns (r: StubResult)
      requires emu.nativeMemory.Valid()
      modifies uc, emu.nativeMemory
      ensures emu.nativeMemory.Valid()
      ensures FirstContaining(modules.modules, addr).None? ==>
        && r == Success(None)
        && uc.cells == old(uc.cells)
        && emu.nativeMemory.next == old(emu.nativeMemory.next) && emu.nativeMemory.blocks == old(emu.nativeMemory.blocks)
      ensures FirstContaining(modules.modules, addr).Some? ==>
        var m := modules.modules[FirstContaining(modules.modules, addr).value];
        var p := old(emu.nativeMemory.next);
        && r == Success(Some(1))
        && emu.nativeMemory.next == p + |m.filename| + 1
        && emu.nativeMemory.blocks == old(emu.nativeMemory.blocks) + [Block(p, |m.filename| + 1)]
        && uc.cells == DlInfoStored(old(uc.cells), addr, p, m)
    {
      var mods := modules.modules;
      var i := 0;
      while i < |mods|
        invariant 0 <= i <= |mods|
        invariant forall j :: 0 <= j < i ==> !Contains(mods[j], addr)
        invariant uc.cells == old(uc.cells)
        invariant emu.nativeMemory.next == old(emu.nativeMemory.next) && emu.nativeMemory.blocks == old(emu.nativeMemory.blocks)
      {
        var mod := mods[i];
        if mod.base <= addr < mod.base + mod.size {
          var fname := emu.nativeMemory.Allocate(|mod.filename| + 1);
          uc.WriteUtf8(fname, mod.filename + [NUL]);
          uc.WriteUints(addr, [fname, mod.base, 0, 0]);
          assert FirstContaining(mods, addr) == Some(i);
          return Success(Some(1));
        }
        i := i + 1;
      }
      return Success(None);
    }

    /** dladdr as evidently intended: the record goes to info, and a miss returns 0. */
    method DlAddrIntended(uc: GuestMemory, addr: int, info: int) returns (r: StubResult)
      requires emu.nativeMemory.Valid()
      modifies uc, emu.nativeMemory
      ensures emu.nativeMemory.Valid()
      ensures FirstContaining(modules.modules, addr).None? ==>
        && r == Success(Some(0))
        && uc.cells == old(uc.cells)
        && emu.nativeMemory.next == old(emu.nativeMemory.next) && emu.nativeMemory.blocks == old(emu.nativeMemory.blocks)
      ensures FirstContaining(modules.modules, addr).Some? ==>
        var m := modules.modules[FirstContaining(modules.modules, addr).value];
        var p := old(emu.nativeMemory.next);
        && r == Success(Some(1))
        && emu.nativeMemory.next == p + |m.filename| + 1
        && emu.nativeMemory.blocks == old(emu.nativeMemory.blocks) + [Block(p, |m.filename| + 1)]
        && uc.cells == DlInfoStored(old(uc.cells), info, p, m)
    {
      var mods := modules.modules;
      var i := 0;
      while i < |mods|
        invariant 0 <= i <= |mods|
        invariant forall j :: 0 <= j < i ==> !Contains(mods[j], addr)
        invariant uc.cells == old(uc.cells)
        invariant emu.nativeMemory.next == old(emu.nativeMemory.next) && emu.nativeMemory.blocks == old(emu.nativeMemory.blocks)
      {
        var mod := mods[i];
        if mod.base <= addr < mod.base + mod.size {
          var fname := emu.nativeMemory.Allocate(|mod.filename| + 1);
          uc.WriteUtf8(fname, mod.filename + [NUL]);
          uc.WriteUints(info, [fname, mod.base, 0, 0]);
          assert FirstContaining(mods, addr) == Some(i);
          return Success(Some(1));
        }
        i := i + 1;
      }
      return Success(Some(0));
    }
  }
}

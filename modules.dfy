/**
 * The module registry (androidemu.internal.modules.Modules): the loaded
 * libraries in load order, and the symbol hooks that stand in for symbols no
 * library provides.
 */
module InternalModules {
  import opened Wrappers

  /** A loaded library: its load address, mapped size, file name and exports. */
  datatype Module = Module(base: int, size: int, filename: string, symbols: map<string, int>)

  /**
   * The key handed to Module.find_symbol. Python looks it up in a dict keyed by
   * symbol names, so a key that is an integer never matches.
   */
  datatype SymbolKey = NameKey(name: string) | IntKey(value: int)

  /** One add_symbol_hook call: a symbol name and the address it resolves to. */
  datatype SymbolHook = SymbolHook(name: string, address: int)

  /** The half-open containment test base <= addr < base + size. */
  predicate Contains(m: Module, addr: int) {
    m.base <= addr < m.base + m.size
  }

  /** Module.find_symbol: the address exported under the key, if any. */
  function FindSymbol(m: Module, key: SymbolKey): (r: Option<int>)
    ensures r.Some? <==> key.NameKey? && key.name in m.symbols
    ensures r.Some? ==> r.value == m.symbols[key.name]
  {
    match key
    case NameKey(name) => if name in m.symbols then Some(m.symbols[name]) else None
    case IntKey(_) => None
  }

  /** Modules.find_module: the first loaded module whose base is the handle. */
  function FindModule(mods: seq<Module>, handle: int): (r: Option<Module>)
    ensures r.None? <==> forall i :: 0 <= i < |mods| ==> mods[i].base != handle
    ensures r.Some? ==> exists i :: 0 <= i < |mods| && mods[i] == r.value && r.value.base == handle
                                   && forall j :: 0 <= j < i ==> mods[j].base != handle
    decreases |mods|
  {
    if mods == [] then None
    else if mods[0].base == handle then Some(mods[0])
    else
      var r := FindModule(mods[1..], handle);
      assert forall i :: 1 <= i < |mods| ==> mods[i] == mods[1..][i - 1];
      r
  }

  /** Modules.find_symbol_str: the address of the name in the first module that exports it. */
  function FindSymbolStr(mods: seq<Module>, name: string): (r: Option<int>)
    ensures r.None? <==> forall i :: 0 <= i < |mods| ==> name !in mods[i].symbols
    ensures r.Some? ==> exists i :: 0 <= i < |mods| && name in mods[i].symbols && mods[i].symbols[name] == r.value
                                   && forall j :: 0 <= j < i ==> name !in mods[j].symbols
    decreases |mods|
  {
    if mods == [] then None
    else if name in mods[0].symbols then Some(mods[0].symbols[name])
    else
      var r := FindSymbolStr(mods[1..], name);
      assert forall i :: 1 <= i < |mods| ==> mods[i] == mods[1..][i - 1];
      r
  }

  /** The index of the first module, in load order, whose range contains addr. */
  function FirstContaining(mods: seq<Module>, addr: int): (r: Option<nat>)
    ensures r.None? <==> forall i :: 0 <= i < |mods| ==> !Contains(mods[i], addr)
    ensures r.Some? ==> r.value < |mods| && Contains(mods[r.value], addr)
                        && forall j :: 0 <= j < r.value ==> !Contains(mods[j], addr)
    decreases |mods|
  {
    if mods == [] then None
    else if Contains(mods[0], addr) then Some(0)
    else
      match FirstContaining(mods[1..], addr)
      case None => None
      case Some(k) => Some(k + 1)
  }

  /** The symbol-hook table after the given add_symbol_hook calls, applied in order. */
  function HooksAfter(hooks: map<string, int>, log: seq<SymbolHook>): map<string, int>
    decreases |log|
  {
    if log == [] then hooks else HooksAfter(hooks[log[0].name := log[0].address], log[1..])
  }

  lemma {:induction false} HooksAfterAppend(hooks: map<string, int>, log: seq<SymbolHook>, h: SymbolHook)
    ensures HooksAfter(hooks, log + [h]) == HooksAfter(hooks, log)[h.name := h.address]
    decreases |log|
  {
    if log != [] {
      assert (log + [h])[1..] == log[1..] + [h];
      HooksAfterAppend(hooks[log[0].name := log[0].address], log[1..], h);
    }
  }

  /** A hook whose name no later call reuses is what the table holds for that name. */
  lemma {:induction false} LastHookWins(hooks: map<string, int>, log: seq<SymbolHook>, i: nat)
    requires i < |log|
    requires forall j :: i < j < |log| ==> log[j].name != log[i].name
    ensures log[i].name in HooksAfter(hooks, log)
    ensures HooksAfter(hooks, log)[log[i].name] == log[i].address
    decreases |log|
  {
    var h := log[|log| - 1];
    var init := log[..|log| - 1];
    assert log == init + [h];
    HooksAfterAppend(hooks, init, h);
    if i < |log| - 1 {
      LastHookWins(hooks, init, i);
    }
  }

  class Modules {
    var modules: seq<Module>
    var symbolHooks: map<string, int>
    /** Every add_symbol_hook call so far, in order. */
    ghost var hookLog: seq<SymbolHook>

    /** The hook table is exactly the outcome of the recorded add_symbol_hook calls. */
    ghost predicate Valid()
      reads this
    {
      symbolHooks == HooksAfter(map[], hookLog)
    }

    constructor()
      ensures Valid()
      ensures modules == [] && symbolHooks == map[] && hookLog == []
    {
      modules := [];
      symbolHooks := map[];
      hookLog := [];
    }

    method AddSymbolHook(name: string, address: int)
      requires Valid()
      modifies this
      ensures Valid()
      ensures symbolHooks == old(symbolHooks)[name := address]
      ensures hookLog == old(hookLog) + [SymbolHook(name, address)]
      ensures modules == old(modules)
    {
      HooksAfterAppend(map[], hookLog, SymbolHook(name, address));
      symbolHooks := symbolHooks[name := address];
      hookLog := hookLog + [SymbolHook(name, address)];
    }

    /** load_module: the library image, once mapped, joins the end of the list. */
    method LoadModule(image: Module) returns (m: Module)
      requires Valid()
      modifies this
      ensures Valid()
      ensures m == image
      ensures modules == old(modules) + [image]
      ensures symbolHooks == old(symbolHooks) && hookLog == old(hookLog)
    {
      modules := modules + [image];
      m := image;
    }
  }
}

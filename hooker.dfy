/**
 * The trampoline installer (androidemu.hooker.Hooker). write_function places a
 * trampoline for a host callback in guest memory and returns its address;
 * trampolines are Thumb code, so each starts on a halfword boundary.
 */
module HookerModel {
  /** The host callbacks NativeHooks installs. */
  datatype Callback =
    | PropertyGetFn
    | DlOpenFn
    | DlCloseFn
    | DlAddrFn
    | DlSymFn
    | NopFn(symbol: string)

  class Hooker {
    /** Where the next trampoline goes. */
    var next: int
    /** Bytes taken by one trampoline. */
    const stride: nat
    /** Trampoline address to the callback it transfers to. */
    var bound: map<int, Callback>

    ghost predicate Valid()
      reads this
    {
      && next % 2 == 0
      && stride > 0 && stride % 2 == 0
      && forall a :: a in bound ==> a < next && a % 2 == 0
    }

    constructor(hookBase: int, trampolineSize: nat)
      requires hookBase % 2 == 0 && trampolineSize > 0 && trampolineSize % 2 == 0
      ensures Valid() && next == hookBase && stride == trampolineSize && bound == map[]
    {
      next := hookBase;
      stride := trampolineSize;
      bound := map[];
    }

    method WriteFunction(stub: Callback) returns (addr: int)
      requires Valid()
      modifies this
      ensures Valid()
      ensures addr == old(next) && addr % 2 == 0 && next > addr
      ensures addr !in old(bound) && bound == old(bound)[addr := stub]
    {
      addr := next;
      bound := bound[addr := stub];
      next := next + stride;
    }
  }
}

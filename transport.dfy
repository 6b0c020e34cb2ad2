/** The memory-access transport (VmmSharpEx) seen from the input manager, as a
    snapshot oracle: process names, per-process module table, per-process
    readable memory and the debug-symbol table. Every query that the source
    tests with a `bool` result is an `Option` here. */
module Transport {
  import opened Words

  /** Addresses above this constant are taken to be kernel-space pointers. */
  const KernelFloor: u64 := 0x7FFF_FFFF_FFFF

  /** What `Map_GetModuleFromName` yields: image base and image size. */
  datatype Module = Module(vaBase: u64, cbImageSize: u32)

  datatype Vmm = Vmm(
    processes: map<string, u32>,
    modules: map<(u32, string), Module>,
    memory: map<(u32, int), bv8>,
    symbols: map<(string, string), u64>,
    symbolLookupThrows: bool)

  /** `PidGetFromName`. */
  function PidGetFromName(t: Vmm, name: string): Option<u32> {
    if name in t.processes then Some(t.processes[name]) else None
  }

  /** `Map_GetModuleFromName`. */
  function GetModule(t: Vmm, pid: u32, name: string): Option<Module> {
    if (pid, name) in t.modules then Some(t.modules[(pid, name)]) else None
  }

  /** Every byte of `[addr, addr + n)` of process `pid` can be read. */
  predicate Readable(t: Vmm, pid: u32, addr: int, n: nat) {
    forall a :: addr <= a < addr + n ==> (pid, a) in t.memory
  }

  /** `MemReadSpan` of `n` bytes at `addr`: the bytes, or `None` when any of them
      is unreadable. */
  function MemRead(t: Vmm, pid: u32, addr: int, n: nat): (r: Option<seq<bv8>>)
    ensures r.Some? <==> Readable(t, pid, addr, n)
    ensures r.Some? ==> |r.value| == n
    ensures r.Some? ==>
      forall k :: 0 <= k < n ==> (pid, addr + k) in t.memory && r.value[k] == t.memory[(pid, addr + k)]
    decreases n
  {
    if n == 0 then Some([])
    else if (pid, addr) !in t.memory then None
    else
      match MemRead(t, pid, addr + 1, n - 1)
      case None => None
      case Some(rest) => Some([t.memory[(pid, addr)]] + rest)
  }

  /** Outcome of `PdbSymbolAddress`: an address, a miss, or an exception. */
  datatype SymbolLookup = SymbolFound(addr: u64) | SymbolMissing | SymbolThrew

  function PdbSymbolAddress(t: Vmm, moduleName: string, symbol: string): SymbolLookup {
    if t.symbolLookupThrows then SymbolThrew
    else if (moduleName, symbol) in t.symbols then SymbolFound(t.symbols[(moduleName, symbol)])
    else SymbolMissing
  }
}

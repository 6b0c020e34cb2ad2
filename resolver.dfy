/** Locating `gafAsyncKeyState` in kernel memory: which processes are tried,
    the per-process chain (module, two signature scans, a RIP-relative load,
    the session slot walk, a per-session offset), and the Modern, Legacy and
    top-level strategies that `InitKeyboard*` follow. The methods that only
    compute a value live here; the ones that write the manager's fields are in
    the `Input` module and are proved against the functions below. */
module Resolver {
  import opened Words
  import opened Transport
  import opened SignatureScan

  const CsrssName: string := "csrss.exe"
  const WinlogonName: string := "winlogon.exe"
  const Win32kName: string := "win32k.sys"
  const Win32ksgdName: string := "win32ksgd.sys"
  const Win32kbaseName: string := "win32kbase.sys"
  /** Module and symbol names handed to the debug-symbol lookup. */
  const SymbolModuleName: string := "win32kbase"
  const SymbolName: string := "gafAsyncKeyState"

  /** Builds above this number take the Modern strategy. */
  const ModernBuildThreshold: int := 22000

  /** The named lookup is repeated for session ids `0..3`. */
  const SessionIds: nat := 4
  /** The fallback probes pids `100, 104, ..., 996` and keeps at most three. */
  const ProbeFirst: nat := 100
  const ProbeLimit: nat := 1000
  const ProbeStride: nat := 4
  const MaxProbed: nat := 3
  /** Entries of the session slot table that are walked. */
  const SlotCount: nat := 4
  /** `mov rax, [rip+disp32]` is 7 bytes long; its displacement starts at byte 3. */
  const RipInstructionLength: nat := 7
  const DisplacementOffset: nat := 3

  /** `mov rax, [rip+disp32]; mov rax, [rax+rcx*8]`. */
  const SlotsPattern: seq<bv8> := [0x48, 0x8B, 0x05, 0x00, 0x00, 0x00, 0x00, 0x48, 0x8B, 0x04, 0xC8]
  const SlotsMask: string := "xxx????xxxx"
  /** `mov rax, [rip+disp32]; dec ecx`. */
  const SlotsAltPattern: seq<bv8> := [0x48, 0x8B, 0x05, 0x00, 0x00, 0x00, 0x00, 0xFF, 0xC9]
  const SlotsAltMask: string := "xxx????xx"
  /** `lea rdx, [rax+disp32]; call rel32; xorps xmm0, xmm0`. */
  const OffsetPattern: seq<bv8> :=
    [0x48, 0x8D, 0x90, 0x00, 0x00, 0x00, 0x00, 0xE8, 0x00, 0x00, 0x00, 0x00, 0x0F, 0x57, 0xC0]
  const OffsetMask: string := "xxx????x????xxx"

  // ---------------------------------------------------------------------
  // Candidate processes
  // ---------------------------------------------------------------------

  /** What the session-id loop collects. The session id is never passed to
      the lookup, so all four iterations ask the same question: the result is
      the one pid `csrss.exe` resolves to, or nothing. */
  function NamedCandidates(t: Vmm): (pids: seq<u32>)
    ensures |pids| <= 1
    ensures |pids| == 1 <==> PidGetFromName(t, CsrssName).Some?
    ensures |pids| == 1 ==> pids[0] == PidGetFromName(t, CsrssName).value
  {
    match PidGetFromName(t, CsrssName)
    case Some(pid) => [pid]
    case None => []
  }

  /** A probed pid qualifies when it has `win32k.sys` or `win32ksgd.sys`
      loaded. */
  predicate HostsWin32k(t: Vmm, pid: u32) {
    GetModule(t, pid, Win32kName).Some? || GetModule(t, pid, Win32ksgdName).Some?
  }

  /** A pid the fallback probes. */
  predicate IsProbe(p: int) {
    ProbeFirst <= p < ProbeLimit && p % ProbeStride == 0
  }

  /** The fallback loop from `testPid` on, having collected `acc`. */
  function ProbedFrom(t: Vmm, testPid: nat, acc: seq<u32>): seq<u32>
    decreases ProbeLimit - testPid
  {
    if testPid >= ProbeLimit then acc
    else if HostsWin32k(t, testPid) then
      var acc' := acc + [testPid];
      if |acc'| >= MaxProbed then acc' else ProbedFrom(t, testPid + ProbeStride, acc')
    else ProbedFrom(t, testPid + ProbeStride, acc)
  }

  function ProbedCandidates(t: Vmm): seq<u32> {
    ProbedFrom(t, ProbeFirst, [])
  }

  /** The processes `InitKeyboardModern` tries, in order. */
  function Candidates(t: Vmm): seq<u32> {
    var named := NamedCandidates(t);
    if |named| > 0 then named else ProbedCandidates(t)
  }

  /** Invariant of the fallback loop: `acc` holds, in increasing order, every
      qualifying probe below `testPid`, and fewer than three of them. */
  ghost predicate ProbeInvariant(t: Vmm, testPid: nat, acc: seq<u32>) {
    |acc| < MaxProbed && ProbeFirst <= testPid && testPid % ProbeStride == 0 &&
    (forall k :: 0 <= k < |acc| ==> IsProbe(acc[k]) && HostsWin32k(t, acc[k]) && acc[k] < testPid) &&
    (forall k, k' :: 0 <= k < k' < |acc| ==> acc[k] < acc[k']) &&
    (forall p: u32 :: IsProbe(p) && p < testPid && HostsWin32k(t, p) ==> p in acc)
  }

  /** The shape of what the fallback loop returns. */
  ghost predicate ProbedShape(t: Vmm, r: seq<u32>) {
    |r| <= MaxProbed &&
    (forall k :: 0 <= k < |r| ==> IsProbe(r[k]) && HostsWin32k(t, r[k])) &&
    (forall k, k' :: 0 <= k < k' < |r| ==> r[k] < r[k']) &&
    (forall p: u32 :: IsProbe(p) && HostsWin32k(t, p) && (|r| < MaxProbed || p < r[|r| - 1]) ==> p in r)
  }

  lemma {:induction false} ProbedFromShape(t: Vmm, testPid: nat, acc: seq<u32>)
    requires ProbeInvariant(t, testPid, acc)
    ensures ProbedShape(t, ProbedFrom(t, testPid, acc))
    decreases ProbeLimit - testPid
  {
    if testPid >= ProbeLimit {
    } else if HostsWin32k(t, testPid) {
      var acc' := acc + [testPid];
      if |acc'| >= MaxProbed {
        forall p: u32 | IsProbe(p) && HostsWin32k(t, p) && p < acc'[|acc'| - 1]
          ensures p in acc'
        {
          assert p in acc;
        }
      } else {
        ProbedFromShape(t, testPid + ProbeStride, acc');
      }
    } else {
      forall p: u32 | IsProbe(p) && p < testPid + ProbeStride && HostsWin32k(t, p)
        ensures p in acc
      {
        assert p != testPid;
      }
      ProbedFromShape(t, testPid + ProbeStride, acc);
    }
  }

  /** The fallback returns at most three qualifying probes in increasing pid
      order, and skips none below the last one it returns (none at all when it
      returns fewer than three). */
  lemma ProbedCandidatesShape(t: Vmm)
    ensures ProbedShape(t, ProbedCandidates(t))
  {
    ProbedFromShape(t, ProbeFirst, []);
  }

  /** Candidate discovery as the source runs it: the named lookup four times,
      de-duplicated, then the pid probe when that found nothing. */
  method DiscoverCandidates(t: Vmm) returns (pids: seq<u32>)
    ensures pids == Candidates(t)
  {
    pids := [];
    for sessionId := 0 to SessionIds
      invariant pids == if sessionId == 0 then [] else NamedCandidates(t)
    {
      var found := PidGetFromName(t, CsrssName);
      if found.Some? && found.value !in pids {
        pids := pids + [found.value];
      }
    }
    if |pids| == 0 {
      var testPid: nat := ProbeFirst;
      while testPid < ProbeLimit
        invariant ProbeFirst <= testPid <= ProbeLimit && testPid % ProbeStride == 0 && |pids| < MaxProbed
        invariant ProbedCandidates(t) == ProbedFrom(t, testPid, pids)
        decreases ProbeLimit - testPid
      {
        if GetModule(t, testPid, Win32kName).Some? || GetModule(t, testPid, Win32ksgdName).Some? {
          pids := pids + [testPid];
          if |pids| >= MaxProbed {
            break;
          }
        }
        testPid := testPid + ProbeStride;
      }
    }
  }

  // ---------------------------------------------------------------------
  // Session slot walk
  // ---------------------------------------------------------------------

  /** Slot `i`: read the 8-byte entry at `slotsPtr + 8 * i`, then the 8-byte
      value it points at; `None` when either read fails. */
  function SlotValue(t: Vmm, pid: u32, slotsPtr: u64, i: nat): Option<u64> {
    match MemRead(t, pid, Add64(slotsPtr, 8 * i), 8)
    case None => None
    case Some(entryBytes) =>
      match MemRead(t, pid, ToUInt64(entryBytes), 8)
      case None => None
      case Some(sessionBytes) => Some(ToUInt64(sessionBytes))
  }

  /** What slots `i..3` yield, in order. */
  function SlotValuesFrom(t: Vmm, pid: u32, slotsPtr: u64, i: nat): (slots: seq<Option<u64>>)
    ensures i <= SlotCount ==> |slots| == SlotCount - i
    decreases SlotCount - i
  {
    if i >= SlotCount then [] else [SlotValue(t, pid, slotsPtr, i)] + SlotValuesFrom(t, pid, slotsPtr, i + 1)
  }

  /** What the four slots yield. */
  function SlotValues(t: Vmm, pid: u32, slotsPtr: u64): (slots: seq<Option<u64>>)
    ensures |slots| == SlotCount
  {
    SlotValuesFrom(t, pid, slotsPtr, 0)
  }

  lemma {:induction false} SlotValuesFromAt(t: Vmm, pid: u32, slotsPtr: u64, i: nat, k: nat)
    requires i <= k < SlotCount
    ensures SlotValuesFrom(t, pid, slotsPtr, i)[k - i] == SlotValue(t, pid, slotsPtr, k)
    decreases k - i
  {
    if i < k {
      SlotValuesFromAt(t, pid, slotsPtr, i + 1, k);
    }
  }

  /** Entry `k` of the slot values is what slot `k` yields. */
  lemma SlotValueAt(t: Vmm, pid: u32, slotsPtr: u64, k: nat)
    requires k < SlotCount
    ensures SlotValues(t, pid, slotsPtr)[k] == SlotValue(t, pid, slotsPtr, k)
  {
    SlotValuesFromAt(t, pid, slotsPtr, 0, k);
  }

  /** A slot that yields a kernel-space pointer. */
  predicate IsKernelValue(v: Option<u64>) {
    v.Some? && v.value > KernelFloor
  }

  /** The slot loop from slot `i` on with `current` as the value kept so far:
      a failed read skips the slot, a successful one replaces the value, and a
      kernel-space value ends the walk. */
  function SlotWalkFrom(slots: seq<Option<u64>>, i: nat, current: u64): u64
    decreases |slots| - i
  {
    if i >= |slots| then current
    else
      match slots[i]
      case None => SlotWalkFrom(slots, i + 1, current)
      case Some(v) => if v > KernelFloor then v else SlotWalkFrom(slots, i + 1, v)
  }

  /** The user session state the walk yields, starting from 0. */
  function SessionState(t: Vmm, pid: u32, slotsPtr: u64): u64 {
    SlotWalkFrom(SlotValues(t, pid, slotsPtr), 0, 0)
  }

  /** The walk yields a kernel-space value exactly when some slot from `i` on
      holds one, and then it is the first such slot's value. */
  lemma {:induction false} SlotWalkFindsKernel(slots: seq<Option<u64>>, i: nat, current: u64)
    requires current <= KernelFloor
    ensures var r := SlotWalkFrom(slots, i, current);
      (r > KernelFloor <==> exists k :: i <= k < |slots| && IsKernelValue(slots[k])) &&
      (r > KernelFloor ==>
         exists k :: i <= k < |slots| && slots[k] == Some(r) &&
           forall k' :: i <= k' < k ==> !IsKernelValue(slots[k']))
    decreases |slots| - i
  {
    if i < |slots| {
      match slots[i]
      case None =>
        SlotWalkFindsKernel(slots, i + 1, current);
      case Some(v) =>
        if v <= KernelFloor {
          SlotWalkFindsKernel(slots, i + 1, v);
        }
    }
  }

  /** A walk that yields no kernel-space value yields the value of the last
      slot that could be read, or `current` when none could. */
  lemma {:induction false} SlotWalkKeepsLast(slots: seq<Option<u64>>, i: nat, current: u64)
    requires current <= KernelFloor
    requires SlotWalkFrom(slots, i, current) <= KernelFloor
    ensures var r := SlotWalkFrom(slots, i, current);
      (r == current && forall k :: i <= k < |slots| ==> slots[k].None?) ||
      exists k :: i <= k < |slots| && slots[k] == Some(r) && forall k' :: k < k' < |slots| ==> slots[k'].None?
    decreases |slots| - i
  {
    if i < |slots| {
      match slots[i]
      case None =>
        SlotWalkKeepsLast(slots, i + 1, current);
      case Some(v) =>
        SlotWalkKeepsLast(slots, i + 1, v);
    }
  }

  /** The user session state is the first kernel-space value among the four
      slots when there is one; otherwise the value of the last slot that
      could be read, or 0 when none could. */
  lemma SessionStateMeaning(t: Vmm, pid: u32, slotsPtr: u64)
    ensures var slots := SlotValues(t, pid, slotsPtr);
      var r := SessionState(t, pid, slotsPtr);
      (r > KernelFloor <==> exists k :: 0 <= k < SlotCount && IsKernelValue(slots[k])) &&
      (r > KernelFloor ==>
         exists k :: 0 <= k < SlotCount && slots[k] == Some(r) &&
           forall k' :: 0 <= k' < k ==> !IsKernelValue(slots[k'])) &&
      (r <= KernelFloor ==>
         (r == 0 && forall k :: 0 <= k < SlotCount ==> slots[k].None?) ||
         exists k :: 0 <= k < SlotCount && slots[k] == Some(r) &&
           forall k' :: k < k' < SlotCount ==> slots[k'].None?)
  {
    var slots := SlotValues(t, pid, slotsPtr);
    SlotWalkFindsKernel(slots, 0, 0);
    if SessionState(t, pid, slotsPtr) <= KernelFloor {
      SlotWalkKeepsLast(slots, 0, 0);
    }
  }

  /** The slot loop as the source runs it. */
  method WalkSlots(t: Vmm, pid: u32, slotsPtr: u64) returns (state: u64)
    ensures state == SessionState(t, pid, slotsPtr)
  {
    ghost var slots := SlotValues(t, pid, slotsPtr);
    state := 0;
    var i: nat := 0;
    while i < SlotCount
      invariant i <= SlotCount
      invariant SessionState(t, pid, slotsPtr) == SlotWalkFrom(slots, i, state)
    {
      SlotValueAt(t, pid, slotsPtr, i);
      var entryBytes := MemRead(t, pid, Add64(slotsPtr, 8 * i), 8);
      if entryBytes.Some? {
        var entry := ToUInt64(entryBytes.value);
        var sessionBytes := MemRead(t, pid, entry, 8);
        if sessionBytes.Some? {
          state := ToUInt64(sessionBytes.value);
          if state > KernelFloor {
            break;
          }
        }
      }
      i := i + 1;
    }
  }

  // ---------------------------------------------------------------------
  // RIP-relative load
  // ---------------------------------------------------------------------

  /** The slot-table address as the source computes it: the end of the 7-byte
      instruction plus the displacement read as `int` and then cast to
      `uint`, so zero-extended. */
  function SlotTableAddress(matchAddr: u64, disp: seq<bv8>): u64
    requires |disp| == 4
  {
    Add64(Add64(matchAddr, RipInstructionLength), ToInt32(disp) % TWO_32)
  }

  /** The operand address of `mov rax, [rip+disp32]` as the processor forms
      it: the displacement is sign-extended. */
  function RipRelativeTarget(matchAddr: u64, disp: seq<bv8>): (r: u64)
    requires |disp| == 4
    ensures (r - (matchAddr + RipInstructionLength) - ToInt32(disp)) % TWO_64 == 0
  {
    (matchAddr + RipInstructionLength + ToInt32(disp)) % TWO_64
  }

  lemma ModDiffers(x: int, d: int)
    requires 0 < d < TWO_64
    ensures (x + d) % TWO_64 != x % TWO_64
  {
    var q, r := x / TWO_64, x % TWO_64;
    assert x + d == q * TWO_64 + (r + d);
    if r + d < TWO_64 {
      assert (x + d) % TWO_64 == r + d by { ModOf(x + d, q, r + d); }
    } else {
      assert (x + d) % TWO_64 == r + d - TWO_64 by { ModOf(x + d, q + 1, r + d - TWO_64); }
    }
  }

  lemma ModOf(x: int, q: int, r: int)
    requires x == q * TWO_64 + r && 0 <= r < TWO_64
    ensures x % TWO_64 == r
  {
  }

  /** Zero-extending the displacement gives the processor's target exactly
      when the displacement is non-negative; for a negative one the computed
      address is `2^32` too high. */
  lemma ZeroExtensionAgreesIffNonNegative(matchAddr: u64, disp: seq<bv8>)
    requires |disp| == 4
    ensures SlotTableAddress(matchAddr, disp) == RipRelativeTarget(matchAddr, disp) <==> ToInt32(disp) >= 0
    ensures ToInt32(disp) < 0 ==>
              SlotTableAddress(matchAddr, disp) ==
              (matchAddr + RipInstructionLength + ToInt32(disp) + TWO_32) % TWO_64
  {
    var x := matchAddr + RipInstructionLength + ToInt32(disp);
    var y := Add64(matchAddr, RipInstructionLength);
    ModShift(matchAddr + RipInstructionLength, (matchAddr + RipInstructionLength) / TWO_64);
    if ToInt32(disp) >= 0 {
      Add64Twice(matchAddr, RipInstructionLength, ToInt32(disp));
    } else {
      Add64Twice(matchAddr, RipInstructionLength, ToInt32(disp) + TWO_32);
      ModDiffers(x, TWO_32);
    }
  }

  /** A displacement of -16 (`F0 FF FF FF`) after a match at
      `0xFFFF_F800_0000_0000`: the source computes `0xFFFF_F800_FFFF_FFF7`,
      the processor loads from `0xFFFF_F7FF_FFFF_FFF7`. */
  lemma NegativeDisplacementExample()
    ensures ToInt32([0xF0, 0xFF, 0xFF, 0xFF]) == -16
    ensures SlotTableAddress(0xFFFF_F800_0000_0000, [0xF0, 0xFF, 0xFF, 0xFF]) == 0xFFFF_F800_FFFF_FFF7
    ensures RipRelativeTarget(0xFFFF_F800_0000_0000, [0xF0, 0xFF, 0xFF, 0xFF]) == 0xFFFF_F7FF_FFFF_FFF7
  {
  }

  // ---------------------------------------------------------------------
  // One candidate process
  // ---------------------------------------------------------------------

  /** The pass over one candidate: skipped (`continue`), or the address it
      wrote into `_gafAsyncKeyStateExport`. */
  datatype Reach = NotReached | Reached(exportAddress: u64)

  /** The module the first scans search: `win32ksgd.sys`, else `win32k.sys`. */
  function GraphicsModule(t: Vmm, pid: u32): Option<Module> {
    match GetModule(t, pid, Win32ksgdName)
    case Some(m) => Some(m)
    case None => GetModule(t, pid, Win32kName)
  }

  /** The `mov rax, [rip+disp32]` that loads the session slot table: the first
      pattern, else the alternate one; 0 when neither is found. */
  function SlotsLoad(t: Vmm, pid: u32, m: Module): u64 {
    var first := SignatureAddress(t, pid, m.vaBase, m.cbImageSize, SlotsPattern, SlotsMask);
    if first != 0 then first
    else SignatureAddress(t, pid, m.vaBase, m.cbImageSize, SlotsAltPattern, SlotsAltMask)
  }

  /** First half of the per-candidate chain: the graphics module, the slot
      table load, the displacement, the slot-table pointer and the slot walk
      yield the user session state. */
  function SessionStage(t: Vmm, pid: u32): Option<u64> {
    match GraphicsModule(t, pid)
    case None => None
    case Some(m) =>
      var sessionPtr := SlotsLoad(t, pid, m);
      if sessionPtr == 0 then None
      else
        match MemRead(t, pid, Add64(sessionPtr, DisplacementOffset), 4)
        case None => None
        case Some(disp) =>
          match MemRead(t, pid, SlotTableAddress(sessionPtr, disp), 8)
          case None => None
          case Some(slotsPtrBytes) => Some(SessionState(t, pid, ToUInt64(slotsPtrBytes)))
  }

  /** The `lea rdx, [rax+disp32]` whose displacement is the key-state offset
      inside the session state, found in `win32kbase.sys`; 0 when it is not. */
  function OffsetLoad(t: Vmm, pid: u32, base: Module): u64 {
    SignatureAddress(t, pid, base.vaBase, base.cbImageSize, OffsetPattern, OffsetMask)
  }

  /** Second half of the chain: the 32-bit offset read after that `lea`. */
  function OffsetStage(t: Vmm, pid: u32): Option<u32> {
    match GetModule(t, pid, Win32kbaseName)
    case None => None
    case Some(base) =>
      var ptr := OffsetLoad(t, pid, base);
      if ptr == 0 then None
      else
        match MemRead(t, pid, Add64(ptr, DisplacementOffset), 4)
        case None => None
        case Some(offsetBytes) => Some(ToUInt32(offsetBytes))
  }

  /** The per-candidate chain of `InitKeyboardModern`. Every failed step
      skips the candidate. */
  function CandidateReach(t: Vmm, pid: u32): Reach {
    match SessionStage(t, pid)
    case None => NotReached
    case Some(userSessionState) =>
      match OffsetStage(t, pid)
      case None => NotReached
      case Some(sessionOffset) => Reached(Add64(userSessionState, sessionOffset))
  }

  /** A candidate reaches an address only if it has the graphics module and
      `win32kbase.sys` loaded and all three scans found their pattern; the
      address is the walked session state plus the offset, in unchecked
      `ulong` arithmetic. */
  lemma CandidateReachNeeds(t: Vmm, pid: u32)
    ensures CandidateReach(t, pid).Reached? ==>
      GraphicsModule(t, pid).Some? && SlotsLoad(t, pid, GraphicsModule(t, pid).value) != 0 &&
      GetModule(t, pid, Win32kbaseName).Some? && OffsetLoad(t, pid, GetModule(t, pid, Win32kbaseName).value) != 0
    ensures CandidateReach(t, pid).Reached? ==>
      SessionStage(t, pid).Some? && OffsetStage(t, pid).Some? &&
      CandidateReach(t, pid).exportAddress == Add64(SessionStage(t, pid).value, OffsetStage(t, pid).value)
    ensures CandidateReach(t, pid).Reached? &&
            SessionStage(t, pid).value + OffsetStage(t, pid).value < TWO_64 ==>
      CandidateReach(t, pid).exportAddress == SessionStage(t, pid).value + OffsetStage(t, pid).value
    ensures SessionStage(t, pid).Some? && OffsetStage(t, pid).Some? ==> CandidateReach(t, pid).Reached?
  {
  }

  /** The first half of the loop body as the source runs it. */
  method ResolveSessionState(t: Vmm, pid: u32) returns (userSessionState: Option<u64>)
    ensures userSessionState == SessionStage(t, pid)
  {
    var win32kBase: u64 := 0;
    var win32kSize: u32 := 0;
    var sgd := GetModule(t, pid, Win32ksgdName);
    if sgd.Some? {
      win32kBase, win32kSize := sgd.value.vaBase, sgd.value.cbImageSize;
    } else {
      var w32k := GetModule(t, pid, Win32kName);
      if w32k.None? {
        return None;
      }
      win32kBase, win32kSize := w32k.value.vaBase, w32k.value.cbImageSize;
    }
    var sessionPtr := FindSignature(t, pid, win32kBase, win32kSize, SlotsPattern, SlotsMask);
    if sessionPtr == 0 {
      sessionPtr := FindSignature(t, pid, win32kBase, win32kSize, SlotsAltPattern, SlotsAltMask);
      if sessionPtr == 0 {
        return None;
      }
    }
    var relativeBytes := MemRead(t, pid, Add64(sessionPtr, DisplacementOffset), 4);
    if relativeBytes.None? {
      return None;
    }
    var slotsPtrBytes := MemRead(t, pid, SlotTableAddress(sessionPtr, relativeBytes.value), 8);
    if slotsPtrBytes.None? {
      return None;
    }
    var state := WalkSlots(t, pid, ToUInt64(slotsPtrBytes.value));
    return Some(state);
  }

  /** The second half of the loop body as the source runs it. */
  method ResolveSessionOffset(t: Vmm, pid: u32) returns (sessionOffset: Option<u32>)
    ensures sessionOffset == OffsetStage(t, pid)
  {
    var win32kbase := GetModule(t, pid, Win32kbaseName);
    if win32kbase.None? {
      return None;
    }
    var ptr := FindSignature(t, pid, win32kbase.value.vaBase, win32kbase.value.cbImageSize,
                             OffsetPattern, OffsetMask);
    if ptr == 0 {
      return None;
    }
    var sessionOffsetBytes := MemRead(t, pid, Add64(ptr, DisplacementOffset), 4);
    if sessionOffsetBytes.None? {
      return None;
    }
    return Some(ToUInt32(sessionOffsetBytes.value));
  }

  /** The body of the candidate loop. */
  method ResolveCandidate(t: Vmm, pid: u32) returns (reach: Reach)
    ensures reach == CandidateReach(t, pid)
  {
    var userSessionState := ResolveSessionState(t, pid);
    if userSessionState.None? {
      return NotReached;
    }
    var sessionOffset := ResolveSessionOffset(t, pid);
    if sessionOffset.None? {
      return NotReached;
    }
    return Reached(Add64(userSessionState.value, sessionOffset.value));
  }

  // ---------------------------------------------------------------------
  // Strategies
  // ---------------------------------------------------------------------

  /** Whether a strategy succeeded, and the value `_gafAsyncKeyStateExport`
      is left with. */
  datatype Resolution = Resolution(ok: bool, exportAddress: u64)

  /** A pass that reached a kernel-space address. */
  predicate ReachesKernel(r: Reach) {
    r.Reached? && r.exportAddress > KernelFloor
  }

  /** The passes over the candidates, in order. */
  function Reaches(t: Vmm, pids: seq<u32>): (rs: seq<Reach>)
    ensures |rs| == |pids|
  {
    if pids == [] then [] else [CandidateReach(t, pids[0])] + Reaches(t, pids[1..])
  }

  /** Entry `k` of the passes is the pass over candidate `k`. */
  lemma {:induction false} ReachAt(t: Vmm, pids: seq<u32>, k: nat)
    requires k < |pids|
    ensures Reaches(t, pids)[k] == CandidateReach(t, pids[k])
  {
    if k > 0 {
      ReachAt(t, pids[1..], k - 1);
    }
  }

  /** The candidate loop over the passes `rs`: every reached address is
      written to the export, and the first kernel-space one ends the loop with
      success. */
  function ModernOver(rs: seq<Reach>, exportAddress: u64): Resolution
    decreases |rs|
  {
    if rs == [] then Resolution(false, exportAddress)
    else
      match rs[0]
      case NotReached => ModernOver(rs[1..], exportAddress)
      case Reached(a) => if a > KernelFloor then Resolution(true, a) else ModernOver(rs[1..], a)
  }

  /** `InitKeyboardModern` from an export value of `exportAddress`. */
  function ModernResult(t: Vmm, exportAddress: u64): Resolution {
    ModernOver(Reaches(t, Candidates(t)), exportAddress)
  }

  /** The loop succeeds exactly when some pass reaches kernel space, and then
      the export is the first such address. */
  lemma {:induction false} ModernOverSucceeds(rs: seq<Reach>, exportAddress: u64)
    ensures var r := ModernOver(rs, exportAddress);
      (r.ok <==> exists k :: 0 <= k < |rs| && ReachesKernel(rs[k])) &&
      (r.ok ==> r.exportAddress > KernelFloor) &&
      (r.ok ==> exists k :: 0 <= k < |rs| && rs[k] == Reached(r.exportAddress) &&
                  forall k' :: 0 <= k' < k ==> !ReachesKernel(rs[k']))
    decreases |rs|
  {
    if rs != [] {
      var rest := rs[1..];
      var next := if rs[0].Reached? && !ReachesKernel(rs[0]) then rs[0].exportAddress else exportAddress;
      if !ReachesKernel(rs[0]) {
        ModernOverSucceeds(rest, next);
        var r := ModernOver(rest, next);
        if r.ok {
          var k :| 0 <= k < |rest| && rest[k] == Reached(r.exportAddress) &&
                   forall k' :: 0 <= k' < k ==> !ReachesKernel(rest[k']);
          assert rs[k + 1] == Reached(r.exportAddress);
          assert forall k' :: 1 <= k' < k + 1 ==> rs[k'] == rest[k' - 1];
        }
        if exists k :: 0 <= k < |rs| && ReachesKernel(rs[k]) {
          var k :| 0 <= k < |rs| && ReachesKernel(rs[k]);
          assert ReachesKernel(rest[k - 1]);
        }
        if exists k :: 0 <= k < |rest| && ReachesKernel(rest[k]) {
          var k :| 0 <= k < |rest| && ReachesKernel(rest[k]);
          assert ReachesKernel(rs[k + 1]);
        }
      }
    }
  }

  /** The export after every pass in `rs` has written its address: the
      address of the last pass that got that far, or `exportAddress` when none
      did. */
  function LastReached(rs: seq<Reach>, exportAddress: u64): u64
    decreases |rs|
  {
    if rs == [] then exportAddress
    else LastReached(rs[1..], if rs[0].Reached? then rs[0].exportAddress else exportAddress)
  }

  /** `LastReached` is the starting value exactly when no pass reached an
      address, and otherwise the address of a pass with none reaching after
      it. */
  lemma {:induction false} LastReachedMeaning(rs: seq<Reach>, exportAddress: u64)
    ensures var e := LastReached(rs, exportAddress);
      ((forall k :: 0 <= k < |rs| ==> rs[k].NotReached?) ==> e == exportAddress) &&
      ((exists k :: 0 <= k < |rs| && rs[k].Reached?) ==>
         exists k :: 0 <= k < |rs| && rs[k] == Reached(e) &&
           forall k' :: k < k' < |rs| ==> rs[k'].NotReached?)
    decreases |rs|
  {
    if rs != [] {
      var rest := rs[1..];
      var next := if rs[0].Reached? then rs[0].exportAddress else exportAddress;
      LastReachedMeaning(rest, next);
      var e := LastReached(rest, next);
      assert forall k :: 0 <= k < |rest| ==> rest[k] == rs[k + 1];
      if exists k :: 0 <= k < |rest| && rest[k].Reached? {
        var k :| 0 <= k < |rest| && rest[k] == Reached(e) &&
                 forall k' :: k < k' < |rest| ==> rest[k'].NotReached?;
        assert rs[k + 1] == Reached(e);
      } else if rs[0].Reached? {
        assert rs[0] == Reached(e);
      }
    }
  }

  /** A failed loop has let every pass write its address: the export is the
      address of the last pass that reached one, or unchanged when none
      did. */
  lemma {:induction false} ModernOverFails(rs: seq<Reach>, exportAddress: u64)
    requires !ModernOver(rs, exportAddress).ok
    ensures ModernOver(rs, exportAddress).exportAddress == LastReached(rs, exportAddress)
    decreases |rs|
  {
    if rs != [] {
      var next := if rs[0].Reached? then rs[0].exportAddress else exportAddress;
      ModernOverFails(rs[1..], next);
    }
  }

  /** `VMMDLL_PID_PROCESS_WITH_KERNELMEMORY`: the pid with its top bit set. */
  function KernelPid(pid: u32): (r: u32)
    ensures r >= 0x8000_0000 && r % 0x8000_0000 == pid % 0x8000_0000
  {
    if pid >= 0x8000_0000 then pid else pid + 0x8000_0000
  }

  /** `InitKeyboardLegacy`: `win32kbase.sys` must be mapped in winlogon's
      kernel view; a symbol found decides the outcome by the kernel floor; a
      missing symbol or a failed lookup falls back to the Modern strategy. */
  function LegacyResult(t: Vmm, winLogonPid: u32, exportAddress: u64): Resolution {
    if GetModule(t, KernelPid(winLogonPid), Win32kbaseName).None? then Resolution(false, exportAddress)
    else
      match PdbSymbolAddress(t, SymbolModuleName, SymbolName)
      case SymbolFound(addr) => Resolution(addr > KernelFloor, addr)
      case _ => ModernResult(t, exportAddress)
  }

  /** The outcome of `InitKeyboard`, with the pid it stores. */
  datatype InitOutcome = InitOutcome(ok: bool, exportAddress: u64, winLogonPid: u32)

  /** `InitKeyboard`: `build` is what the registry read gave (0 when it could
      not be read or parsed). */
  function InitResult(t: Vmm, build: int, exportAddress: u64, winLogonPid: u32): InitOutcome {
    if build == 0 then InitOutcome(false, exportAddress, winLogonPid)
    else
      match PidGetFromName(t, WinlogonName)
      case None => InitOutcome(false, exportAddress, winLogonPid)
      case Some(w) =>
        var r := if build > ModernBuildThreshold then ModernResult(t, exportAddress) else LegacyResult(t, w, exportAddress);
        InitOutcome(r.ok, r.exportAddress, w)
  }

  /** The Modern strategy succeeds exactly when some candidate's pass reaches
      kernel space, and then leaves the first such address in the export. */
  lemma ModernSound(t: Vmm, exportAddress: u64)
    ensures var pids := Candidates(t);
      var r := ModernResult(t, exportAddress);
      (r.ok <==> exists k :: 0 <= k < |pids| && ReachesKernel(CandidateReach(t, pids[k]))) &&
      (r.ok ==> r.exportAddress > KernelFloor) &&
      (r.ok ==> exists k :: 0 <= k < |pids| && CandidateReach(t, pids[k]) == Reached(r.exportAddress) &&
                  forall k' :: 0 <= k' < k ==> !ReachesKernel(CandidateReach(t, pids[k'])))
  {
    var pids := Candidates(t);
    var rs := Reaches(t, pids);
    ModernOverSucceeds(rs, exportAddress);
    forall k | 0 <= k < |pids|
      ensures rs[k] == CandidateReach(t, pids[k])
    {
      ReachAt(t, pids, k);
    }
  }

  /** Success of any strategy leaves a kernel-space export. */
  lemma ResolutionSound(t: Vmm, build: int, exportAddress: u64, winLogonPid: u32)
    ensures ModernResult(t, exportAddress).ok ==> ModernResult(t, exportAddress).exportAddress > KernelFloor
    ensures LegacyResult(t, winLogonPid, exportAddress).ok ==>
              LegacyResult(t, winLogonPid, exportAddress).exportAddress > KernelFloor
    ensures InitResult(t, build, exportAddress, winLogonPid).ok ==>
              InitResult(t, build, exportAddress, winLogonPid).exportAddress > KernelFloor
  {
    ModernOverSucceeds(Reaches(t, Candidates(t)), exportAddress);
  }

  /** The top-level choice: no build number or no `winlogon.exe` fails
      without touching the export; otherwise builds above 22000 take the
      Modern strategy and the others the Legacy one. */
  lemma InitDispatch(t: Vmm, build: int, exportAddress: u64, winLogonPid: u32)
    ensures var r := InitResult(t, build, exportAddress, winLogonPid);
      (build == 0 || PidGetFromName(t, WinlogonName).None? ==> r == InitOutcome(false, exportAddress, winLogonPid)) &&
      (build != 0 && PidGetFromName(t, WinlogonName).Some? ==>
         var w := PidGetFromName(t, WinlogonName).value;
         r.winLogonPid == w &&
         (build > ModernBuildThreshold ==> Resolution(r.ok, r.exportAddress) == ModernResult(t, exportAddress)) &&
         (build <= ModernBuildThreshold ==> Resolution(r.ok, r.exportAddress) == LegacyResult(t, w, exportAddress)))
  {
  }
}

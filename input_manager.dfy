/** The `InputManager` object: its kernel-state fields, the initialisation
    it runs on construction, the rate-limited key query and the per-tick
    hotkey pass that merges the kernel decode with the two fallback signals. */
module Input {
  import opened Words
  import opened Transport
  import opened KeyDecode
  import opened KeyPoller
  import opened Resolver

  /** One registered hotkey: its virtual key and the action it drives. */
  datatype Hotkey = Hotkey(vk: i32, action: nat)

  /** What one action is handed: `Execute(isKeyDown)`. */
  datatype Dispatch = Dispatch(action: nat, down: bool)

  /** What one hotkey's pass reads from outside the manager: the clock, the
      64 bytes the kernel read leaves in the bitmap, the result of
      `GetAsyncKeyState`, and the input device as it then stands. */
  datatype Signals = Signals(now: int, fetched: seq<bv8>, asyncState: bv16, device: Device)

  /** The `GetAsyncKeyState` fallback, consulted for mouse buttons only. */
  predicate FallbackDown(vk: i32, sig: Signals) {
    IsMouseVirtualKey(vk) && IsMouseAsyncDown(sig.asyncState)
  }

  /** One hotkey of `InputManager_PerformWork`: the kernel query only when
      initialised, then the OR of the three signals. */
  function KeyPass(s: KeyState, initialized: bool, exportAddress: u64, h: Hotkey, sig: Signals)
    : (r: (Dispatch, KeyState))
    requires |sig.fetched| == |s.bitmap|
    ensures |r.1.bitmap| == |s.bitmap| && |r.1.previous| == |s.previous|
  {
    var (kernel, s') :=
      if initialized then Query(s, Enabled(initialized, exportAddress), h.vk, sig.now, sig.fetched)
      else (false, s);
    (Dispatch(h.action, kernel || FallbackDown(h.vk, sig) || IsDeviceAimbotKeyDown(sig.device, h.vk)), s')
  }

  /** Every pass gets the length of the bitmap it will read. */
  ghost predicate SignalsFit(signals: seq<Signals>, bitmapLength: nat) {
    forall k :: 0 <= k < |signals| ==> |signals[k].fetched| == bitmapLength
  }

  /** `InputManager_PerformWork` over the hotkeys from index `k` on, threading
      the poller state from one query to the next. */
  function TickFrom(s: KeyState, initialized: bool, exportAddress: u64, hotkeys: seq<Hotkey>,
                    signals: seq<Signals>, k: nat): (r: (seq<Dispatch>, KeyState))
    requires |signals| == |hotkeys| && SignalsFit(signals, |s.bitmap|)
    ensures |r.1.bitmap| == |s.bitmap| && |r.1.previous| == |s.previous|
    decreases |hotkeys| - k
  {
    if k >= |hotkeys| then ([], s)
    else
      var (d, s') := KeyPass(s, initialized, exportAddress, hotkeys[k], signals[k]);
      var (ds, s'') := TickFrom(s', initialized, exportAddress, hotkeys, signals, k + 1);
      ([d] + ds, s'')
  }

  /** One tick over all hotkeys. */
  function Tick(s: KeyState, initialized: bool, exportAddress: u64, hotkeys: seq<Hotkey>, signals: seq<Signals>)
    : (seq<Dispatch>, KeyState)
    requires |signals| == |hotkeys| && SignalsFit(signals, |s.bitmap|)
  {
    TickFrom(s, initialized, exportAddress, hotkeys, signals, 0)
  }

  /** A tick hands every hotkey's action exactly one value, in hotkey order;
      a key that is not a mouse button can read as down only through the
      kernel bitmap, so only when initialised. */
  lemma {:induction false} TickFromShape(s: KeyState, initialized: bool, exportAddress: u64,
                                         hotkeys: seq<Hotkey>, signals: seq<Signals>, k: nat)
    requires |signals| == |hotkeys| && SignalsFit(signals, |s.bitmap|) && k <= |hotkeys|
    ensures var ds := TickFrom(s, initialized, exportAddress, hotkeys, signals, k).0;
      |ds| == |hotkeys| - k &&
      forall j :: k <= j < |hotkeys| ==>
        ds[j - k].action == hotkeys[j].action &&
        (ds[j - k].down && !IsMouseVirtualKey(hotkeys[j].vk) ==> initialized)
    decreases |hotkeys| - k
  {
    if k < |hotkeys| {
      var (d, s') := KeyPass(s, initialized, exportAddress, hotkeys[k], signals[k]);
      TickFromShape(s', initialized, exportAddress, hotkeys, signals, k + 1);
    }
  }

  lemma TickShape(s: KeyState, initialized: bool, exportAddress: u64, hotkeys: seq<Hotkey>, signals: seq<Signals>)
    requires |signals| == |hotkeys| && SignalsFit(signals, |s.bitmap|)
    ensures var ds := Tick(s, initialized, exportAddress, hotkeys, signals).0;
      |ds| == |hotkeys| &&
      forall j :: 0 <= j < |hotkeys| ==>
        ds[j].action == hotkeys[j].action &&
        (ds[j].down && !IsMouseVirtualKey(hotkeys[j].vk) ==> initialized)
  {
    TickFromShape(s, initialized, exportAddress, hotkeys, signals, 0);
  }

  /** The value a hotkey gets when the kernel bitmap contributes nothing. */
  predicate FallbackOnly(h: Hotkey, sig: Signals, d: Dispatch) {
    d == Dispatch(h.action, FallbackDown(h.vk, sig) || IsDeviceAimbotKeyDown(sig.device, h.vk))
  }

  /** When the kernel backend is off, or the previous buffer is too small for
      the 64-byte copy and the bitmap is still zero, the state never changes
      and every hotkey gets exactly the fallback signals. */
  lemma {:induction false} TickFromWithoutKernel(s: KeyState, initialized: bool, exportAddress: u64,
                                                 hotkeys: seq<Hotkey>, signals: seq<Signals>, k: nat)
    requires |signals| == |hotkeys| && SignalsFit(signals, |s.bitmap|) && k <= |hotkeys|
    requires !initialized || (|s.previous| < CopyLength && forall i :: 0 <= i < |s.bitmap| ==> s.bitmap[i] == 0)
    ensures var (ds, s') := TickFrom(s, initialized, exportAddress, hotkeys, signals, k);
      s' == s && |ds| == |hotkeys| - k &&
      forall j :: k <= j < |hotkeys| ==> FallbackOnly(hotkeys[j], signals[j], ds[j - k])
    decreases |hotkeys| - k
  {
    if k < |hotkeys| {
      var h, sig := hotkeys[k], signals[k];
      if initialized {
        var enabled := Enabled(initialized, exportAddress);
        assert Refresh(s, enabled, sig.now, sig.fetched) == s;
        ZeroBitmapNeverDown(s.bitmap, h.vk);
        assert Query(s, enabled, h.vk, sig.now, sig.fetched) == (false, s);
      }
      assert KeyPass(s, initialized, exportAddress, h, sig).1 == s;
      TickFromWithoutKernel(s, initialized, exportAddress, hotkeys, signals, k + 1);
    }
  }

  /** An uninitialised manager hands every hotkey the fallback signals only. */
  lemma TickUninitialized(s: KeyState, exportAddress: u64, hotkeys: seq<Hotkey>, signals: seq<Signals>)
    requires |signals| == |hotkeys| && SignalsFit(signals, |s.bitmap|)
    ensures var (ds, s') := Tick(s, false, exportAddress, hotkeys, signals);
      s' == s && |ds| == |hotkeys| &&
      forall j :: 0 <= j < |hotkeys| ==> FallbackOnly(hotkeys[j], signals[j], ds[j])
  {
    TickFromWithoutKernel(s, false, exportAddress, hotkeys, signals, 0);
  }

  /** With the buffers as declared, even an initialised manager never gets a
      key from the kernel bitmap: from the state the constructor leaves, every
      tick hands out the fallback signals only and leaves the state as it
      was. */
  lemma TickAsWrittenKernelSilent(initialized: bool, exportAddress: u64, hotkeys: seq<Hotkey>, signals: seq<Signals>)
    requires |signals| == |hotkeys| && SignalsFit(signals, BitmapSize)
    ensures var s := InitialState(PreviousSize);
      var (ds, s') := Tick(s, initialized, exportAddress, hotkeys, signals);
      s' == s && |ds| == |hotkeys| &&
      forall j :: 0 <= j < |hotkeys| ==> FallbackOnly(hotkeys[j], signals[j], ds[j])
  {
    TickFromWithoutKernel(InitialState(PreviousSize), initialized, exportAddress, hotkeys, signals, 0);
  }

  /** The two guards differ at exactly one address: `IsKeyDown` and
      `UpdateKeys` accept an export equal to `0x7FFFFFFFFFFF`, which
      `IsBackendAvailable` rejects. */
  lemma GuardsDifferOnlyAtFloor(initialized: bool, exportAddress: u64)
    ensures Enabled(initialized, exportAddress) <==>
            (initialized && exportAddress > KernelFloor) || (initialized && exportAddress == KernelFloor)
  {
  }

  class InputManager {
    var gafAsyncKeyStateExport: u64
    var winLogonPid: u32
    const stateBitmap: array<bv8>
    const previousStateBitmap: array<bv8>
    var lastUpdate: int
    var initialized: bool

    /** The object invariant: two distinct buffers, a 64-byte bitmap, and an
        initialised manager always holds a kernel-space export. */
    ghost predicate Valid()
      reads this
    {
      stateBitmap != previousStateBitmap && stateBitmap.Length == BitmapSize &&
      (initialized ==> gafAsyncKeyStateExport > KernelFloor)
    }

    /** The poller fields as a value. */
    function State(): KeyState
      reads this, stateBitmap, previousStateBitmap
    {
      KeyState(stateBitmap[..], previousStateBitmap[..], lastUpdate)
    }

    /** The guard of `IsKeyDown` and `UpdateKeys`. */
    predicate KernelEnabled()
      reads this
    {
      Enabled(initialized, gafAsyncKeyStateExport)
    }

    /** `IsBackendAvailable`. Under the invariant it is the same as being
        initialised, and the same as the guard of the key query. */
    function IsBackendAvailable(): (r: bool)
      reads this
      ensures Valid() ==> (r <==> initialized) && (r <==> KernelEnabled())
    {
      initialized && gafAsyncKeyStateExport > KernelFloor
    }

    /** The constructor: zeroed buffers of the declared sizes, then
        `_initialized = InitKeyboard()`. `build` is what the registry read
        gave. */
    constructor (t: Vmm, build: int)
      ensures Valid() && fresh(stateBitmap) && fresh(previousStateBitmap)
      ensures previousStateBitmap.Length == PreviousSize
      ensures State() == InitialState(PreviousSize)
      ensures var r := InitResult(t, build, 0, 0);
        initialized == r.ok && gafAsyncKeyStateExport == r.exportAddress && winLogonPid == r.winLogonPid
    {
      gafAsyncKeyStateExport := 0;
      winLogonPid := 0;
      stateBitmap := new bv8[BitmapSize](_ => 0);
      previousStateBitmap := new bv8[PreviousSize](_ => 0);
      lastUpdate := MinTime;
      initialized := false;
      new;
      var ok := InitKeyboard(t, build);
      initialized := ok;
    }

    /** `InitKeyboard`. */
    method InitKeyboard(t: Vmm, build: int) returns (ok: bool)
      modifies this`gafAsyncKeyStateExport, this`winLogonPid
      ensures var r := InitResult(t, build, old(gafAsyncKeyStateExport), old(winLogonPid));
        ok == r.ok && gafAsyncKeyStateExport == r.exportAddress && winLogonPid == r.winLogonPid
      ensures ok ==> gafAsyncKeyStateExport > KernelFloor
    {
      ResolutionSound(t, build, gafAsyncKeyStateExport, winLogonPid);
      if build == 0 {
        return false;
      }
      var winlogon := PidGetFromName(t, WinlogonName);
      if winlogon.None? {
        return false;
      }
      winLogonPid := winlogon.value;
      if build > ModernBuildThreshold {
        ok := InitKeyboardModern(t);
      } else {
        ok := InitKeyboardLegacy(t);
      }
    }

    /** `InitKeyboardModern`: discover the candidates, then run the chain on
        each until one reaches kernel space. */
    method InitKeyboardModern(t: Vmm) returns (ok: bool)
      modifies this`gafAsyncKeyStateExport
      ensures Resolution(ok, gafAsyncKeyStateExport) == ModernResult(t, old(gafAsyncKeyStateExport))
    {
      var pids := DiscoverCandidates(t);
      if |pids| == 0 {
        return false;
      }
      ghost var rs := Reaches(t, pids);
      for k := 0 to |pids|
        invariant ModernResult(t, old(gafAsyncKeyStateExport)) == ModernOver(rs[k..], gafAsyncKeyStateExport)
      {
        ReachAt(t, pids, k);
        assert rs[k..][1..] == rs[k + 1..];
        var reach := ResolveCandidate(t, pids[k]);
        if reach.Reached? {
          gafAsyncKeyStateExport := reach.exportAddress;
          if gafAsyncKeyStateExport > KernelFloor {
            return true;
          }
        }
      }
      return false;
    }

    /** `InitKeyboardLegacy`: the debug-symbol lookup through winlogon's
        kernel view, else the Modern strategy. */
    method InitKeyboardLegacy(t: Vmm) returns (ok: bool)
      modifies this`gafAsyncKeyStateExport
      ensures Resolution(ok, gafAsyncKeyStateExport) == LegacyResult(t, winLogonPid, old(gafAsyncKeyStateExport))
    {
      var kernelPid := KernelPid(winLogonPid);
      var win32kbase := GetModule(t, kernelPid, Win32kbaseName);
      if win32kbase.None? {
        return false;
      }
      var lookup := PdbSymbolAddress(t, SymbolModuleName, SymbolName);
      if lookup.SymbolFound? {
        gafAsyncKeyStateExport := lookup.addr;
        return gafAsyncKeyStateExport > KernelFloor;
      }
      ok := InitKeyboardModern(t);
    }

    /** `UpdateKeys`: `fetched` is what the kernel read leaves in the bitmap.
        The 64-byte copy into the previous buffer comes first and throws
        when that buffer is shorter, before anything is changed. */
    method UpdateKeys(now: int, fetched: seq<bv8>)
      requires Valid() && |fetched| == BitmapSize
      modifies stateBitmap, previousStateBitmap, this`lastUpdate
      ensures Valid()
      ensures State() == Refresh(old(State()), KernelEnabled(), now, fetched)
    {
      if !initialized || gafAsyncKeyStateExport < KernelFloor {
        return;
      }
      if stateBitmap.Length < CopyLength || previousStateBitmap.Length < CopyLength {
        return;
      }
      forall k | 0 <= k < CopyLength {
        previousStateBitmap[k] := stateBitmap[k];
      }
      forall k | 0 <= k < stateBitmap.Length {
        stateBitmap[k] := fetched[k];
      }
      lastUpdate := now;
      assert previousStateBitmap[..] == old(stateBitmap[..])[..CopyLength] + old(previousStateBitmap[..])[CopyLength..];
    }

    /** `IsKeyDown`. */
    method IsKeyDown(vk: i32, now: int, fetched: seq<bv8>) returns (down: bool)
      requires Valid() && |fetched| == BitmapSize
      modifies stateBitmap, previousStateBitmap, this`lastUpdate
      ensures Valid()
      ensures (down, State()) == Query(old(State()), KernelEnabled(), vk, now, fetched)
    {
      if !initialized || gafAsyncKeyStateExport < KernelFloor {
        return false;
      }
      if now - lastUpdate > RefreshIntervalMs {
        UpdateKeys(now, fetched);
      }
      var byteIndex := ByteIndex(vk);
      var bitIndex := BitIndex(vk);
      if 0 <= byteIndex < stateBitmap.Length {
        return ShiftTest(stateBitmap[byteIndex], bitIndex);
      }
      return false;
    }

    /** The body of the hotkey loop of `InputManager_PerformWork` for one
        hotkey: the kernel query when initialised, then the two fallbacks. */
    method PassHotkey(h: Hotkey, sig: Signals) returns (d: Dispatch)
      requires Valid() && |sig.fetched| == BitmapSize
      modifies stateBitmap, previousStateBitmap, this`lastUpdate
      ensures Valid()
      ensures (d, State()) == KeyPass(old(State()), initialized, gafAsyncKeyStateExport, h, sig)
    {
      var isDownKernel := false;
      if initialized {
        isDownKernel := IsKeyDown(h.vk, sig.now, sig.fetched);
      }
      var isDownFallback := IsMouseVirtualKey(h.vk) && IsMouseAsyncDown(sig.asyncState);
      var isDownDevice := IsDeviceAimbotKeyDown(sig.device, h.vk);
      d := Dispatch(h.action, isDownKernel || isDownFallback || isDownDevice);
    }

    /** `InputManager_PerformWork`: one pass over the hotkeys in order, each
        handed the OR of the kernel decode and the two fallbacks. */
    method PerformWork(hotkeys: seq<Hotkey>, signals: seq<Signals>) returns (dispatched: seq<Dispatch>)
      requires Valid() && |signals| == |hotkeys| && SignalsFit(signals, BitmapSize)
      modifies stateBitmap, previousStateBitmap, this`lastUpdate
      ensures Valid()
      ensures (dispatched, State()) == Tick(old(State()), initialized, gafAsyncKeyStateExport, hotkeys, signals)
    {
      dispatched := [];
      ghost var whole := Tick(State(), initialized, gafAsyncKeyStateExport, hotkeys, signals);
      if |hotkeys| == 0 {
        return;
      }
      for k := 0 to |hotkeys|
        invariant Valid()
        invariant whole.0 == dispatched + TickFrom(State(), initialized, gafAsyncKeyStateExport, hotkeys, signals, k).0
        invariant whole.1 == TickFrom(State(), initialized, gafAsyncKeyStateExport, hotkeys, signals, k).1
      {
        ghost var s := State();
        var d := PassHotkey(hotkeys[k], signals[k]);
        assert TickFrom(s, initialized, gafAsyncKeyStateExport, hotkeys, signals, k).0
          == [d] + TickFrom(State(), initialized, gafAsyncKeyStateExport, hotkeys, signals, k + 1).0;
        dispatched := dispatched + [d];
      }
      assert dispatched + [] == dispatched;
    }
  }
}

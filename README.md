# InputManager: kernel key-state backend, in Dafny

This project models the input manager of the EFT DMA radar (`src/DMA/InputManager.cs`).
The manager reads the Windows kernel's asynchronous key-state bitmap (`gafAsyncKeyState`)
through a DMA memory transport. The model covers:

- how the manager locates that bitmap:
  - choosing between the Modern and Legacy strategies by build number;
  - discovering `csrss.exe` candidates (named lookup, then a PID probe);
  - the masked, chunked signature scan;
  - the RIP-relative fix-up;
  - the walk over four session slots;
  - the debug-symbol lookup through winlogon's kernel view;
- the rate-limited refresh of the 64-byte bitmap;
- the two-bits-per-key decode;
- the per-tick hotkey pass, which ORs the kernel decode with two fallbacks:
  `GetAsyncKeyState` for mouse buttons, and the hardware input device.

The memory transport is a snapshot oracle (`Transport.Vmm`) that holds:

- process names;
- per-process module tables;
- per-process byte-addressed memory;
- the debug-symbol table.

A query the source tests with a `bool` result becomes an `Option` here.

C# integer semantics are written out in `Words`:

- unchecked `ulong` addition and subtraction;
- unchecked `int` multiplication;
- division and remainder that truncate toward zero;
- little-endian `BitConverter` decodes.

The masking of shift counts to five bits is written out in `KeyDecode.ShiftTest`.

Modules, in dependency order:

- `Words`: machine integers and little-endian decoding.
- `Transport`: the memory transport as values.
- `KeyDecode`: the bitmap decode, mouse virtual keys, device buttons.
- `KeyPoller`: the refresh and the key query as functions of the poller state.
- `SignatureScan`: `FindSignature`, as an imperative method over a 64 KB `array` buffer. It is proved equal to a specification by outcome sequences.
- `Resolver`: candidate discovery, the slot walk, the per-candidate chain and the three initialisation strategies. Each is a specification function plus the method that computes it.
- `Input`: the `InputManager` class with its fields, constructor, initialisers, `UpdateKeys`, `IsKeyDown` and `InputManager_PerformWork`. Each method is proved against the functions above.

Where the intended behaviour and the code differ, the model follows the code:

- **RIP displacement.** An x86-64 instruction sign-extends its RIP-relative 32-bit
  displacement. The code zero-extends it (`(ulong)(uint)relative`). `Resolver.SlotTableAddress`
  models the code. `Resolver.ZeroExtensionAgreesIffNonNegative` shows the two agree exactly when the
  displacement is non-negative.
- **Failed refresh read.** A refresh whose kernel read fails would best keep the old bitmap
  (stale data rather than a blank read). The code ignores the read's result. The model takes the 64 bytes the read leaves behind
  as a parameter (`fetched`).
- **Refresh timestamp.** The code sets the timestamp whenever the copy and the read return
  without throwing, whether or not the read reported success. An attempt whose copy throws leaves it
  unchanged. With the declared buffer sizes the copy always throws, so the timestamp never moves
  (see Findings).

## Model

| member | source | states |
|---|---|---|
| Words.ToInt32 | src/DMA/InputManager.cs:201 | `BitConverter.ToInt32`: negative exactly when the top byte has its high bit set, and congruent modulo 2^32 to the unsigned decode |
| Words.ToUInt32 | src/DMA/InputManager.cs:248 | `BitConverter.ToUInt32`: below 2^31 exactly when the top byte is below 0x80 |
| Words.LittleEndian4 | src/DMA/InputManager.cs:248 | the 4-byte little-endian decode is b0 + 256·b1 + 65536·b2 + 2^24·b3, below 2^32 |
| Transport.MemRead | src/DMA/InputManager.cs:432 | `MemReadSpan` succeeds exactly when every byte of the range is readable, and then returns those bytes in order |
| KeyDecode.KeyBitOfNonNegative | src/DMA/InputManager.cs:350-360 | for every key code 0 ≤ K < 2^30, the decode is bit (K mod 4)·2 of byte K/4, and false past the 64-byte bitmap |
| KeyDecode.KeyBitOfNegative | src/DMA/InputManager.cs:350-360 | a negative key code that does not overflow `keyCode * 2` never reads as down |
| KeyDecode.KeyBitIgnoresOtherBits | src/DMA/InputManager.cs:350-357 | flipping any bitmap bit other than the key's own leaves the key's answer unchanged |
| KeyDecode.SharedByteExample | src/DMA/InputManager.cs:350-357 | keys 0..3 share byte 0 at bits 0, 2, 4, 6: with byte 0 equal to 1 only key 0 is down |
| KeyDecode.MinValueAliasesKeyZero | src/DMA/InputManager.cs:350-357 | because `keyCode * 2` wraps, key code −2^31 decodes the same bit as key 0 |
| KeyDecode.DeviceButton | src/DMA/InputManager.cs:482-515 | a virtual key maps to a device button exactly when it is one of the five mouse keys of `IsMouseVirtualKey` |
| KeyDecode.DeviceButtonBijective | src/DMA/InputManager.cs:490-512 | the mouse-key to device-button mapping is one-to-one and onto |
| KeyDecode.IsDeviceAimbotKeyDown | src/DMA/InputManager.cs:482-515 | down exactly when the device is connected, has a state buffer, the key is a mouse key, and its button is pressed |
| KeyPoller.InitialState | src/DMA/InputManager.cs:34-36 | a 64-byte zero bitmap, a zeroed previous buffer of the given size, never refreshed |
| KeyPoller.RefreshOutcome | src/DMA/InputManager.cs:315-335 | a refresh either changes nothing or stamps `now`; it changes the state only when enabled and the previous buffer holds the 64-byte copy; it then moves the old bitmap into the previous buffer and installs the read bytes |
| KeyPoller.Query | src/DMA/InputManager.cs:340-361 | a query keeps both buffer sizes |
| KeyPoller.QueryWithoutRefresh | src/DMA/InputManager.cs:342-349 | disabled, or within 100 ms of the last refresh: no refresh, and the answer is the decode of the bitmap held (false when disabled) |
| KeyPoller.AtMostOneRefreshPerInterval | src/DMA/InputManager.cs:345-349 | of two queries at most 100 ms apart, at most one refreshes; if the first did, the second reuses its state |
| KeyPoller.AsWrittenRefreshNeverLands | src/DMA/InputManager.cs:323 | with the 32-byte previous buffer, every refresh is a no-op and every query decodes the bitmap already held |
| KeyPoller.AsWrittenKernelNeverDown | src/DMA/InputManager.cs:315-361 | from the constructor's state, every sequence of queries answers false for every key |
| KeyPoller.ZeroBitmapNeverDown | src/DMA/InputManager.cs:350-360 | no key reads as down from an all-zero bitmap |
| KeyPoller.CorrectedRefreshLands | src/DMA/InputManager.cs:320-328 | with a 64-byte previous buffer, a stale query answers from the freshly read bytes and keeps the old bitmap as the previous one |
| SignatureScan.MatchFromMeaning | src/DMA/InputManager.cs:437-446 | the inner loop matches exactly when the mask covers the pattern and every `'x'` byte is equal; it faults exactly when the mask runs out before the first masked difference |
| SignatureScan.ChunkStart | src/DMA/InputManager.cs:427 | every position lies in exactly one chunk, between its start and the next chunk's start |
| SignatureScan.Outcomes | src/DMA/InputManager.cs:427-449 | one outcome per reachable position p with p + len < size |
| SignatureScan.OutcomeAt | src/DMA/InputManager.cs:427-449 | outcome q is what happens at position q: skipped when its chunk is unreadable, otherwise the comparison in that chunk |
| SignatureScan.FoundIsFirstMatch | src/DMA/InputManager.cs:435-449 | a found position matched, and every earlier position was skipped or mismatched |
| SignatureScan.NotFoundMeansNoMatch | src/DMA/InputManager.cs:427-458 | "not found" means every position was skipped or mismatched |
| SignatureScan.AbortedMeansFault | src/DMA/InputManager.cs:438-458 | an aborted scan stopped at a faulting comparison, after positions that were all passed over |
| SignatureScan.UnreadableChunkIsSkipped | src/DMA/InputManager.cs:432-433 | an unreadable chunk skips every position it would have covered |
| SignatureScan.ExamineInChunk | src/DMA/InputManager.cs:429-438 | buffer index i of the chunk at offset o is position o + i of the scan |
| SignatureScan.ChunkPrefixPassedOver | src/DMA/InputManager.cs:435-446 | positions of a chunk whose comparisons mismatched are passed over |
| SignatureScan.ChunkExhausted | src/DMA/InputManager.cs:435 | the positions the inner loop never reaches in a chunk (p + len ≥ readSize) are covered by the next chunk or are not positions at all |
| SignatureScan.ChunkOutcome | src/DMA/InputManager.cs:427-449 | a chunk's search decides the scan: a match gives the found address, a fault aborts, and otherwise the scan continues at the next chunk |
| SignatureScan.ExamineMeaning | src/DMA/InputManager.cs:427-449 | over a range that does not wrap past 2^64: a reported match is the pattern in memory at that address; on a readable range the comparison always happens and matches exactly when the pattern is there, and never faults when the mask covers the pattern |
| SignatureScan.ChunkMatchMeaning | src/DMA/InputManager.cs:437-446 | comparing in the buffer is comparing in memory at the same address |
| SignatureScan.NoFaultNoAbort | src/DMA/InputManager.cs:438-458 | without a faulting comparison the scan is never aborted |
| SignatureScan.ReadableRangeScan | src/DMA/InputManager.cs:420-460 | over a readable range that does not wrap past 2^64, with a mask covering the pattern, the result is the lowest address holding the pattern (with p + len < size), and "not found" means no such address exists |
| SignatureScan.CompareAt | src/DMA/InputManager.cs:437-446 | the `j` loop over the buffer computes the probe of the specification |
| SignatureScan.SearchChunk | src/DMA/InputManager.cs:435-449 | the `i` loop stops at the first match or fault; every earlier index mismatched; without a stop, every index with i + len < readSize was tried |
| SignatureScan.ScanChunkAt | src/DMA/InputManager.cs:429-449 | one pass of the outer loop either ends the scan with the address of the specification, or leaves the remaining result unchanged when it moves to the next chunk |
| SignatureScan.FindSignature | src/DMA/InputManager.cs:420-460 | the method returns exactly the specification's address: start + first match, or 0 when nothing matched or a fault ended the scan |
| Resolver.NamedCandidates | src/DMA/InputManager.cs:125-132 | the session loop adds at most one pid, the one the named lookup gives, whatever the session index |
| Resolver.ProbedFromShape | src/DMA/InputManager.cs:139-147 | the probe collects, in increasing order and at most three, the probe pids from 100 up that host win32k.sys or win32ksgd.sys, with none skipped before the last one taken |
| Resolver.ProbedCandidatesShape | src/DMA/InputManager.cs:135-148 | the same for the probe from pid 100 with no candidates yet |
| Resolver.DiscoverCandidates | src/DMA/InputManager.cs:120-148 | the two loops compute the candidate list: the named pid, else the probed pids |
| Resolver.SlotWalkFindsKernel | src/DMA/InputManager.cs:211-225 | the walk yields a kernel-space value exactly when some readable slot holds one, and then the first such |
| Resolver.SlotWalkKeepsLast | src/DMA/InputManager.cs:211-225 | a walk without a kernel-space value yields the last slot value that could be read, or its starting value |
| Resolver.SessionStateMeaning | src/DMA/InputManager.cs:205-225 | the session state is the first kernel-space slot value, else the last readable one, else 0 |
| Resolver.WalkSlots | src/DMA/InputManager.cs:205-225 | the four-slot loop computes the session state of the specification |
| Resolver.RipRelativeTarget | src/DMA/InputManager.cs:197-202 | the corrected target is match + 7 + signed displacement, modulo 2^64 |
| Resolver.ZeroExtensionAgreesIffNonNegative | src/DMA/InputManager.cs:201-202 | the zero-extended target equals the signed one exactly when the displacement is non-negative, and is 2^32 too high otherwise |
| Resolver.NegativeDisplacementExample | src/DMA/InputManager.cs:201-202 | displacement F0 FF FF FF (−16) at 0xFFFFF80000000000 gives 0xFFFFF800FFFFFFF7 as written, against 0xFFFFF7FFFFFFFFF7 intended |
| Resolver.CandidateReachNeeds | src/DMA/InputManager.cs:160-250 | a candidate reaches an export only when a graphics module, a slot-table match, win32kbase.sys and an offset match all exist; it reaches one exactly when both the session-state and the offset stage succeed, and the export is then their sum in unchecked `ulong` (the plain sum when it does not wrap) |
| Resolver.ResolveSessionState | src/DMA/InputManager.cs:163-225 | the method computes the session-state stage of the specification, including each `continue` |
| Resolver.ResolveSessionOffset | src/DMA/InputManager.cs:227-248 | the method computes the offset stage of the specification |
| Resolver.ResolveCandidate | src/DMA/InputManager.cs:160-249 | the method computes the per-candidate reach of the specification |
| Resolver.ModernOverSucceeds | src/DMA/InputManager.cs:158-264 | over any list of candidate results, Modern succeeds exactly when some candidate reaches kernel space; it then returns the first such export, which is above 0x7FFFFFFFFFFF |
| Resolver.LastReachedMeaning | src/DMA/InputManager.cs:249 | the export after every pass has written its address is the starting value when no pass got that far, and otherwise the address of a pass after which none did |
| Resolver.ModernOverFails | src/DMA/InputManager.cs:158-264 | a failed Modern pass leaves the export of the last candidate that reached line 249, and the old value only when none did |
| Resolver.ModernSound | src/DMA/InputManager.cs:118-264 | the same over the candidates of a given transport snapshot |
| Resolver.KernelPid | src/DMA/InputManager.cs:275 | `pid \| 0x80000000` sets the top bit and keeps the low 31 bits |
| Resolver.ResolutionSound | src/DMA/InputManager.cs:75-310 | a successful Modern, Legacy or overall initialisation always leaves a kernel-space export |
| Resolver.InitDispatch | src/DMA/InputManager.cs:75-111 | no build number or no winlogon.exe fails and changes nothing; otherwise builds above 22000 take Modern and the others Legacy, with the winlogon pid recorded |
| Input.KeyPass | src/DMA/InputManager.cs:369-399 | one hotkey's pass keeps the buffer sizes |
| Input.TickShape | src/DMA/InputManager.cs:363-400 | a tick hands every action exactly one value, in hotkey order; a non-mouse key reads as down only when the kernel backend is initialised |
| Input.TickUninitialized | src/DMA/InputManager.cs:374-398 | uninitialised: the state never changes and each action gets exactly the `GetAsyncKeyState` or device signal |
| Input.TickAsWrittenKernelSilent | src/DMA/InputManager.cs:363-400 | from the constructor's state with the declared buffers, every tick gives only the fallback signals and leaves the state unchanged |
| Input.GuardsDifferOnlyAtFloor | src/DMA/InputManager.cs:317 | the key-query guard accepts exactly what `IsBackendAvailable` accepts, plus an export equal to 0x7FFFFFFFFFFF |
| Input.InputManager.IsBackendAvailable | src/DMA/InputManager.cs:43 | under the object invariant, available exactly when initialised and exactly when the key query is enabled |
| Input.InputManager.constructor | src/DMA/InputManager.cs:45-50 | zeroed 64- and 32-byte buffers, never refreshed, and the fields the initialisation specification gives |
| Input.InputManager.InitKeyboard | src/DMA/InputManager.cs:75-111 | the fields and result equal the initialisation specification; success leaves a kernel-space export |
| Input.InputManager.InitKeyboardModern | src/DMA/InputManager.cs:118-264 | result and export equal the Modern specification over the discovered candidates |
| Input.InputManager.InitKeyboardLegacy | src/DMA/InputManager.cs:270-310 | result and export equal the Legacy specification: the symbol lookup through winlogon's kernel view, else Modern |
| Input.InputManager.UpdateKeys | src/DMA/InputManager.cs:315-335 | the new state is the refresh of the old one, and the invariant is kept |
| Input.InputManager.IsKeyDown | src/DMA/InputManager.cs:340-361 | answer and new state are the query of the old state |
| Input.InputManager.PassHotkey | src/DMA/InputManager.cs:371-398 | one hotkey's loop body: its dispatch and new state are the pass of the specification |
| Input.InputManager.PerformWork | src/DMA/InputManager.cs:363-400 | the dispatched values and final state are the tick of the old state |

## Left out

- The worker thread, its 12 ms dynamic sleep, `Dispose` and all logging are not modelled. `InputManager_PerformWork` is modelled as one call.
- Windows APIs are parameters of the model:
  - the registry read of the build number (`GetWindowsBuildNumber`) is the constructor's `build`;
  - the clock is an integer number of milliseconds (`DateTime.MinValue` is 0);
  - `GetAsyncKeyState` gives a 16-bit value per pass;
  - the hardware device is a value per pass;
  - the hotkey table is a sequence of (virtual key, action) pairs.
- `Input.InputManager.UpdateKeys` does not model whether the kernel read succeeded. `fetched` stands for the 64 bytes the buffer holds afterwards, whatever the transport did.
- `Input.InputManager.IsKeyDown` takes its two `DateTime.UtcNow` readings (the rate check and the refresh stamp) as the same `now`.
- `Input.InputManager.PerformWork`: `action.Execute` is not modelled. The method returns the (action, value) pairs in order instead.
- `SignatureScan.FindSignature` requires a pattern length other than 0x10000, because at exactly that length the loop step is zero and the source does not terminate. It also requires a length below 2^31, the most a C# array can hold.
- Exceptions are modelled only where the code can throw in reach of the model:
  - the 64-byte `Buffer.BlockCopy`;
  - a mask shorter than the pattern;
  - a symbol lookup that throws.
  Any other exception (transport faults) is not modelled.
- The `Win32VirtualKey` enumeration is not part of this model. The five mouse keys take their Win32 values (1, 2, 4, 5, 6).
- The `DeviceAimbot` class is not part of this model. `Device.connected`, `Device.bState != null` and `button_pressed` become fields of a value.
- `Resolver.KernelPid`: the `| 0x80000000` is stated arithmetically, as top bit set and low 31 bits kept.

## Findings

| source | as written | input that shows it | evidently intended | confidence | as-written member | corrected member |
|---|---|---|---|---|---|---|
| src/DMA/InputManager.cs:35 | `_previousStateBitmap` has 256/8 = 32 bytes, but `UpdateKeys` copies 64 bytes into it, so every refresh throws and is caught; the bitmap stays all zero and no key is ever down through the kernel | any refresh after the constructor, e.g. a query at `now` = 101 ms | a 64-byte previous buffer, so that a refresh installs the read bytes | not executed | KeyPoller.AsWrittenKernelNeverDown | KeyPoller.CorrectedRefreshLands |
| src/DMA/InputManager.cs:202 | the slot-table displacement is zero-extended (`(ulong)(uint)relative`), so a negative displacement lands 2^32 bytes too high | displacement F0 FF FF FF at match address 0xFFFFF80000000000 | the signed RIP-relative target, match + 7 + displacement | not executed | Resolver.NegativeDisplacementExample | Resolver.RipRelativeTarget |

/** The rate-limited refresh of the key-state bitmap (`UpdateKeys`) and the
    per-key query (`IsKeyDown`) as functions of the poller state, so that
    several queries in a row can be reasoned about. The `InputManager` class
    keeps this state in its fields and its methods are proved against these
    functions. */
module KeyPoller {
  import opened Words
  import opened Transport
  import opened KeyDecode

  /** Size of `_previousStateBitmap` as declared: `256 / 8` bytes. */
  const PreviousSize: nat := 256 / 8
  /** Bytes `UpdateKeys` copies from the current into the previous buffer. */
  const CopyLength: nat := 64
  /** A refresh happens only when more than this many milliseconds have passed. */
  const RefreshIntervalMs: int := 100
  /** `DateTime.MinValue` on the millisecond clock of this model. */
  const MinTime: int := 0

  /** The poller's fields: current bitmap, previous bitmap, time of the last
      completed refresh. */
  datatype KeyState = KeyState(bitmap: seq<bv8>, previous: seq<bv8>, lastUpdate: int)

  /** The state the constructor leaves: both buffers zeroed, never refreshed. */
  function InitialState(previousSize: nat): (s: KeyState)
    ensures |s.bitmap| == BitmapSize && |s.previous| == previousSize
    ensures forall k :: 0 <= k < BitmapSize ==> s.bitmap[k] == 0
  {
    KeyState(seq(BitmapSize, _ => 0), seq(previousSize, _ => 0), MinTime)
  }

  /** The guard shared by `UpdateKeys` and `IsKeyDown`: initialised and an
      address not below the kernel floor. */
  predicate Enabled(initialized: bool, address: u64) {
    initialized && !(address < KernelFloor)
  }

  /** `UpdateKeys`. `fetched` is what the transport leaves in the current
      buffer after the read (the source ignores whether the read succeeded).
      `Buffer.BlockCopy` of 64 bytes throws when either buffer is shorter; the
      exception is caught and nothing has changed. */
  function Refresh(s: KeyState, enabled: bool, now: int, fetched: seq<bv8>): KeyState
    requires |fetched| == |s.bitmap|
  {
    if !enabled then s
    else if |s.bitmap| < CopyLength || |s.previous| < CopyLength then s
    else KeyState(fetched, s.bitmap[..CopyLength] + s.previous[CopyLength..], now)
  }

  /** A refresh changes the state only when the copy succeeds, and then it sets
      the timestamp to `now`, the previous buffer to the old bitmap and the
      bitmap to what was read. */
  lemma RefreshOutcome(s: KeyState, enabled: bool, now: int, fetched: seq<bv8>)
    requires |fetched| == |s.bitmap|
    ensures var r := Refresh(s, enabled, now, fetched);
      (r == s || r.lastUpdate == now) &&
      (r != s ==> enabled && |s.previous| >= CopyLength) &&
      (enabled && |s.bitmap| == CopyLength <= |s.previous| ==>
         r.bitmap == fetched && r.previous[..CopyLength] == s.bitmap &&
         r.previous[CopyLength..] == s.previous[CopyLength..] && r.lastUpdate == now)
  {
  }

  /** `IsKeyDown`: disabled gives false and changes nothing; otherwise a
      refresh when more than 100 ms have passed, then the decode. */
  function Query(s: KeyState, enabled: bool, vk: i32, now: int, fetched: seq<bv8>): (r: (bool, KeyState))
    requires |fetched| == |s.bitmap|
    ensures |r.1.bitmap| == |s.bitmap| && |r.1.previous| == |s.previous|
  {
    if !enabled then (false, s)
    else
      var s' := if now - s.lastUpdate > RefreshIntervalMs then Refresh(s, enabled, now, fetched) else s;
      (KeyBit(s'.bitmap, vk), s')
  }

  /** Disabled, or within 100 ms of the last refresh: nothing is refreshed and
      the answer is the decode of the bitmap already held (false when
      disabled). */
  lemma QueryWithoutRefresh(s: KeyState, enabled: bool, vk: i32, now: int, fetched: seq<bv8>)
    requires |fetched| == |s.bitmap|
    requires !enabled || now - s.lastUpdate <= RefreshIntervalMs
    ensures Query(s, enabled, vk, now, fetched) == (enabled && KeyBit(s.bitmap, vk), s)
  {
  }

  /** Two queries less than 100 ms apart refresh at most once: if the first
      one refreshed, the second one reuses its bitmap. */
  lemma AtMostOneRefreshPerInterval(s: KeyState, enabled: bool, vk1: i32, vk2: i32,
                                    t1: int, t2: int, f1: seq<bv8>, f2: seq<bv8>)
    requires |f1| == |s.bitmap| && |f2| == |s.bitmap|
    requires t1 <= t2 <= t1 + RefreshIntervalMs
    ensures var s1 := Query(s, enabled, vk1, t1, f1).1;
      |f2| == |s1.bitmap| &&
      (s1 == s || Query(s1, enabled, vk2, t2, f2).1 == s1)
  {
    var s1 := Query(s, enabled, vk1, t1, f1).1;
    if s1 != s {
      assert s1.lastUpdate == t1;
      QueryWithoutRefresh(s1, enabled, vk2, t2, f2);
    }
  }

  /** As declared, the previous buffer has 32 bytes, so every refresh throws
      inside `Buffer.BlockCopy`: the state never changes and every query
      decodes the bitmap the constructor zeroed. */
  lemma AsWrittenRefreshNeverLands(s: KeyState, enabled: bool, vk: i32, now: int, fetched: seq<bv8>)
    requires |s.previous| == PreviousSize && |fetched| == |s.bitmap|
    ensures Refresh(s, enabled, now, fetched) == s
    ensures Query(s, enabled, vk, now, fetched) == (enabled && KeyBit(s.bitmap, vk), s)
  {
  }

  /** So with the declared buffer sizes no key ever reads as down through the
      kernel bitmap, however many queries are made. */
  lemma {:induction false} AsWrittenKernelNeverDown(vks: seq<i32>, enabled: bool, times: seq<int>,
                                                   fetched: seq<seq<bv8>>)
    requires |times| == |vks| && |fetched| == |vks|
    requires forall k :: 0 <= k < |vks| ==> |fetched[k]| == BitmapSize
    ensures QueriesDown(InitialState(PreviousSize), enabled, vks, times, fetched) == seq(|vks|, _ => false)
  {
    var s := InitialState(PreviousSize);
    if |vks| > 0 {
      AsWrittenRefreshNeverLands(s, enabled, vks[0], times[0], fetched[0]);
      ZeroBitmapNeverDown(s.bitmap, vks[0]);
      AsWrittenKernelNeverDown(vks[1..], enabled, times[1..], fetched[1..]);
    }
  }

  lemma ZeroBitmapNeverDown(bitmap: seq<bv8>, vk: i32)
    requires forall k :: 0 <= k < |bitmap| ==> bitmap[k] == 0
    ensures !KeyBit(bitmap, vk)
  {
    var i := ByteIndex(vk);
    if 0 <= i < |bitmap| {
      var s := BitIndex(vk) % 32;
      if s < 8 {
        assert bitmap[i] & (1 << s) == 0;
      }
    }
  }

  /** The answers of a run of queries made one after another. */
  function QueriesDown(s: KeyState, enabled: bool, vks: seq<i32>, times: seq<int>,
                       fetched: seq<seq<bv8>>): (r: seq<bool>)
    requires |times| == |vks| && |fetched| == |vks|
    requires forall k :: 0 <= k < |vks| ==> |fetched[k]| == |s.bitmap|
    decreases |vks|
  {
    if vks == [] then []
    else
      var (down, s') := Query(s, enabled, vks[0], times[0], fetched[0]);
      assert |s'.bitmap| == |s.bitmap|;
      [down] + QueriesDown(s', enabled, vks[1..], times[1..], fetched[1..])
  }

  /** With a 64-byte previous buffer, as evidently intended, a stale bitmap is
      refreshed: the query answers from the bytes just read and keeps the old
      bitmap as the previous one. */
  lemma CorrectedRefreshLands(s: KeyState, vk: i32, now: int, fetched: seq<bv8>)
    requires |s.bitmap| == BitmapSize && |s.previous| == CopyLength && |fetched| == BitmapSize
    requires now - s.lastUpdate > RefreshIntervalMs
    ensures Query(s, true, vk, now, fetched) == (KeyBit(fetched, vk), KeyState(fetched, s.bitmap, now))
  {
    assert s.bitmap[..CopyLength] + s.previous[CopyLength..] == s.bitmap;
  }
}

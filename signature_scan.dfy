/** `FindSignature`: a first-match search for a masked byte pattern in
    `[start, start + size)` of one process, read in 64 KB chunks that
    overlap by the pattern length. A chunk that cannot be read is skipped; an
    exception (a mask shorter than the pattern) gives 0, which is also the
    "not found" answer. */
module SignatureScan {
  import opened Words
  import opened Transport

  const ChunkSize: nat := 0x10000

  /** Outcome of comparing the pattern at one buffer index: all masked bytes
      equal, a masked byte differs, or `mask[j]` ran past the mask. */
  datatype Probe = Match | Mismatch | Fault

  /** The inner `j` loop from index `j` on: `mask[j]` is read first, then the
      byte is compared only when the mask says `'x'`. */
  function MatchFrom(buf: seq<bv8>, i: nat, pattern: seq<bv8>, mask: string, j: nat): Probe
    requires i + |pattern| <= |buf| && j <= |pattern|
    decreases |pattern| - j
  {
    if j == |pattern| then Match
    else if j >= |mask| then Fault
    else if mask[j] == 'x' && buf[i + j] != pattern[j] then Mismatch
    else MatchFrom(buf, i, pattern, mask, j + 1)
  }

  /** Positions `from..to-1` of the pattern are covered by the mask and every
      `'x'` position among them equals the buffer at `i`. */
  ghost predicate MaskedEqual(buf: seq<bv8>, i: nat, pattern: seq<bv8>, mask: string, from: nat, to: nat)
    requires to <= |pattern| && i + |pattern| <= |buf|
  {
    forall j :: from <= j < to ==> MaskedByteEqual(buf, i, pattern, mask, j)
  }

  /** Pattern index `j` is covered by the mask and, when the mask says `'x'`,
      equals the buffer at `i + j`. */
  ghost predicate MaskedByteEqual(buf: seq<bv8>, i: nat, pattern: seq<bv8>, mask: string, j: nat)
    requires j < |pattern| && i + |pattern| <= |buf|
  {
    j < |mask| && (mask[j] == 'x' ==> buf[i + j] == pattern[j])
  }

  lemma {:induction false} MatchFromMeaning(buf: seq<bv8>, i: nat, pattern: seq<bv8>, mask: string, j: nat)
    requires i + |pattern| <= |buf| && j <= |pattern|
    ensures MatchFrom(buf, i, pattern, mask, j) == Match <==> MaskedEqual(buf, i, pattern, mask, j, |pattern|)
    ensures MatchFrom(buf, i, pattern, mask, j) == Fault <==>
              j < |pattern| && |mask| < |pattern| && MaskedEqual(buf, i, pattern, mask, j, |mask|)
    decreases |pattern| - j
  {
    if j < |pattern| {
      if j >= |mask| || (mask[j] == 'x' && buf[i + j] != pattern[j]) {
        assert !MaskedByteEqual(buf, i, pattern, mask, j);
      } else {
        MatchFromMeaning(buf, i, pattern, mask, j + 1);
      }
    }
  }

  /** Distance between consecutive chunk offsets: `chunkSize - pattern.Length`. */
  function Step(len: nat): nat
    requires len < ChunkSize
  {
    ChunkSize - len
  }

  /** The offset of the chunk in which position `p` is compared. */
  function ChunkStart(p: nat, len: nat): (o: nat)
    requires len < ChunkSize
    ensures o <= p < o + Step(len)
  {
    if p < Step(len) then 0 else Step(len) + ChunkStart(p - Step(len), len)
  }

  /** `Math.Min(chunkSize, size - offset)`. */
  function ReadSize(size: nat, offset: nat): nat
    requires offset <= size
  {
    Min(ChunkSize, size - offset)
  }

  /** The read of the chunk at `offset`. */
  function ChunkRead(t: Vmm, pid: u32, start: u64, size: nat, offset: nat): Option<seq<bv8>>
    requires offset <= size
  {
    MemRead(t, pid, Add64(start, offset), ReadSize(size, offset))
  }

  datatype Examined = Skipped | Compared(probe: Probe)

  /** What happens at relative position `p`: its chunk could not be read, or
      the pattern was compared there. Only positions with `p + len < size` are
      ever reached (`i < readSize - pattern.Length`). */
  function Examine(t: Vmm, pid: u32, start: u64, size: nat, pattern: seq<bv8>, mask: string, p: nat): Examined
    requires |pattern| < ChunkSize && p + |pattern| < size
  {
    var o := ChunkStart(p, |pattern|);
    match ChunkRead(t, pid, start, size, o)
    case None => Skipped
    case Some(chunk) => Compared(MatchFrom(chunk, p - o, pattern, mask, 0))
  }

  /** Number of positions the scan can reach: those with `p + len < size`. */
  function Positions(size: nat, len: nat): nat {
    if len < size then size - len else 0
  }

  /** What happens at each reachable position, in position order. */
  function Outcomes(t: Vmm, pid: u32, start: u64, size: nat, pattern: seq<bv8>, mask: string): (es: seq<Examined>)
    requires |pattern| < ChunkSize
    ensures |es| == Positions(size, |pattern|)
  {
    OutcomesFrom(t, pid, start, size, pattern, mask, 0)
  }

  /** What happens at each reachable position from `p` on. */
  function OutcomesFrom(t: Vmm, pid: u32, start: u64, size: nat, pattern: seq<bv8>, mask: string, p: nat)
    : (es: seq<Examined>)
    requires |pattern| < ChunkSize
    ensures p <= Positions(size, |pattern|) ==> |es| == Positions(size, |pattern|) - p
    decreases Positions(size, |pattern|) - p
  {
    if p >= Positions(size, |pattern|) then []
    else [Examine(t, pid, start, size, pattern, mask, p)] + OutcomesFrom(t, pid, start, size, pattern, mask, p + 1)
  }

  lemma {:induction false} OutcomesFromAt(t: Vmm, pid: u32, start: u64, size: nat, pattern: seq<bv8>, mask: string,
                                         p: nat, q: nat)
    requires |pattern| < ChunkSize && p <= q < Positions(size, |pattern|)
    ensures OutcomesFrom(t, pid, start, size, pattern, mask, p)[q - p] == Examine(t, pid, start, size, pattern, mask, q)
    decreases q - p
  {
    if p < q {
      OutcomesFromAt(t, pid, start, size, pattern, mask, p + 1, q);
    }
  }

  /** Entry `q` of the outcomes is what happens at position `q`. */
  lemma OutcomeAt(t: Vmm, pid: u32, start: u64, size: nat, pattern: seq<bv8>, mask: string, q: nat)
    requires |pattern| < ChunkSize && q < Positions(size, |pattern|)
    ensures Outcomes(t, pid, start, size, pattern, mask)[q] == Examine(t, pid, start, size, pattern, mask, q)
  {
    OutcomesFromAt(t, pid, start, size, pattern, mask, 0, q);
  }

  /** A position the scan does not stop at. */
  predicate PassedOver(e: Examined) {
    e == Skipped || e == Compared(Mismatch)
  }

  datatype ScanResult = Found(pos: nat) | NotFound | Aborted

  /** The scan in position order from `p` on: stop at the first match (found)
      or the first fault (aborted, since the exception ends the whole scan). */
  function FirstStop(es: seq<Examined>, p: nat): ScanResult
    decreases |es| - p
  {
    if p >= |es| then NotFound
    else
      match es[p]
      case Compared(Match) => Found(p)
      case Compared(Fault) => Aborted
      case _ => FirstStop(es, p + 1)
  }

  /** The value `FindSignature` returns. A pattern longer than a chunk is never
      compared, since no chunk holds it. */
  function SignatureAddress(t: Vmm, pid: u32, start: u64, size: nat, pattern: seq<bv8>, mask: string): u64
    requires |pattern| != ChunkSize
  {
    if |pattern| > ChunkSize then 0
    else ResultAddress(start, FirstStop(Outcomes(t, pid, start, size, pattern, mask), 0))
  }

  /** The address a scan result is reported as: the found position added to
      the start address, and 0 otherwise. */
  function ResultAddress(start: u64, r: ScanResult): u64 {
    match r
    case Found(p) => Add64(start, p)
    case _ => 0
  }

  /** A found position is the first position from `p0` on that matched. */
  lemma {:induction false} FoundIsFirstMatch(es: seq<Examined>, p0: nat)
    requires FirstStop(es, p0).Found?
    ensures var p := FirstStop(es, p0).pos;
      p0 <= p < |es| && es[p] == Compared(Match) &&
      forall q :: p0 <= q < p ==> PassedOver(es[q])
    decreases |es| - p0
  {
    if PassedOver(es[p0]) {
      FoundIsFirstMatch(es, p0 + 1);
    }
  }

  /** "Not found" means every position from `p0` on was passed over. */
  lemma {:induction false} NotFoundMeansNoMatch(es: seq<Examined>, p0: nat)
    requires FirstStop(es, p0).NotFound?
    ensures forall q :: p0 <= q < |es| ==> PassedOver(es[q])
    decreases |es| - p0
  {
    if p0 < |es| {
      NotFoundMeansNoMatch(es, p0 + 1);
    }
  }

  /** An aborted scan met a fault, at a position before which nothing
      matched. */
  lemma {:induction false} AbortedMeansFault(es: seq<Examined>, p0: nat) returns (q: nat)
    requires FirstStop(es, p0).Aborted?
    ensures p0 <= q < |es| && es[q] == Compared(Fault)
    ensures forall q' :: p0 <= q' < q ==> PassedOver(es[q'])
    decreases |es| - p0
  {
    if PassedOver(es[p0]) {
      q := AbortedMeansFault(es, p0 + 1);
    } else {
      q := p0;
    }
  }

  /** A run of positions the scan passes over can be jumped. */
  lemma {:induction false} SkipPassedOver(es: seq<Examined>, a: nat, b: nat)
    requires a <= b
    requires forall q :: a <= q < b && q < |es| ==> PassedOver(es[q])
    ensures FirstStop(es, a) == FirstStop(es, b)
    decreases b - a
  {
    if a < b && a < |es| {
      SkipPassedOver(es, a + 1, b);
    }
  }

  /** Chunk offsets are the multiples of the step. */
  predicate ChunkBoundary(o: nat, len: nat)
    requires len < ChunkSize
  {
    ChunkStart(o, len) == o
  }

  /** Positions `o..o+Step-1` are compared in the chunk at boundary `o`. */
  lemma {:induction false} ChunkStartWithin(o: nat, len: nat, q: nat)
    requires len < ChunkSize && ChunkBoundary(o, len)
    requires o <= q < o + Step(len)
    ensures ChunkStart(q, len) == o
  {
    if o > 0 {
      ChunkStartWithin(o - Step(len), len, q - Step(len));
    }
  }

  /** The chunk after a boundary starts at a boundary. */
  lemma NextChunkBoundary(o: nat, len: nat)
    requires len < ChunkSize && ChunkBoundary(o, len)
    ensures ChunkBoundary(o + Step(len), len)
  {
  }

  /** An unreadable chunk makes every position compared in it `Skipped`, and
      the scan carries on with the next chunk. */
  lemma UnreadableChunkIsSkipped(t: Vmm, pid: u32, start: u64, size: nat, pattern: seq<bv8>, mask: string, o: nat)
    requires |pattern| < ChunkSize && ChunkBoundary(o, |pattern|) && o <= size
    requires ChunkRead(t, pid, start, size, o).None?
    ensures var es := Outcomes(t, pid, start, size, pattern, mask);
      FirstStop(es, o) == FirstStop(es, o + Step(|pattern|))
  {
    var es := Outcomes(t, pid, start, size, pattern, mask);
    forall q | o <= q < o + Step(|pattern|) && q < |es|
      ensures PassedOver(es[q])
    {
      OutcomeAt(t, pid, start, size, pattern, mask, q);
      ChunkStartWithin(o, |pattern|, q);
    }
    SkipPassedOver(es, o, o + Step(|pattern|));
  }

  lemma Add64Twice(a: u64, b: nat, c: nat)
    ensures Add64(Add64(a, b), c) == Add64(a, b + c)
  {
    var x := a + b;
    var m := x / TWO_64;
    assert x == m * TWO_64 + Add64(a, b);
    assert Add64(a, b) + c == (a + b + c) - m * TWO_64;
    ModShift(a + b + c, m);
  }

  lemma ModShift(x: int, m: int)
    ensures (x - m * TWO_64) % TWO_64 == x % TWO_64
  {
    var q, r := x / TWO_64, x % TWO_64;
    assert x - m * TWO_64 == (q - m) * TWO_64 + r;
  }

  /** Position `i` of the chunk at boundary `o` is compared against that chunk's
      bytes. */
  lemma ExamineInChunk(t: Vmm, pid: u32, start: u64, size: nat, pattern: seq<bv8>, mask: string,
                       o: nat, bytes: seq<bv8>, i: nat)
    requires |pattern| < ChunkSize && ChunkBoundary(o, |pattern|) && o <= size
    requires ChunkRead(t, pid, start, size, o) == Some(bytes)
    requires i + |pattern| < |bytes|
    ensures o + i + |pattern| < size
    ensures Examine(t, pid, start, size, pattern, mask, o + i) ==
            Compared(MatchFrom(bytes, i, pattern, mask, 0))
  {
    ChunkStartWithin(o, |pattern|, o + i);
  }

  /** The positions of one chunk that mismatched can be jumped. */
  lemma ChunkPrefixPassedOver(t: Vmm, pid: u32, start: u64, size: nat, pattern: seq<bv8>, mask: string,
                              o: nat, bytes: seq<bv8>, n: nat)
    requires |pattern| < ChunkSize && ChunkBoundary(o, |pattern|) && o <= size
    requires ChunkRead(t, pid, start, size, o) == Some(bytes)
    requires n == 0 || n + |pattern| <= |bytes|
    requires forall i :: 0 <= i < n ==> MatchFrom(bytes, i, pattern, mask, 0) == Mismatch
    ensures var es := Outcomes(t, pid, start, size, pattern, mask);
      FirstStop(es, o) == FirstStop(es, o + n)
  {
    var es := Outcomes(t, pid, start, size, pattern, mask);
    forall q | o <= q < o + n && q < |es|
      ensures PassedOver(es[q])
    {
      var i := q - o;
      assert MatchFrom(bytes, i, pattern, mask, 0) == Mismatch;
      OutcomeAt(t, pid, start, size, pattern, mask, q);
      ExamineInChunk(t, pid, start, size, pattern, mask, o, bytes, i);
    }
    SkipPassedOver(es, o, o + n);
  }

  /** Once the in-chunk index reaches `readSize - pattern.Length`, the rest of
      the chunk's positions either belong to the next chunk (which starts
      exactly there) or lie past the last position compared. */
  lemma ChunkExhausted(t: Vmm, pid: u32, start: u64, size: nat, pattern: seq<bv8>, mask: string,
                       o: nat, bytes: seq<bv8>, i: nat)
    requires |pattern| < ChunkSize && o <= size
    requires ChunkRead(t, pid, start, size, o) == Some(bytes)
    requires (i == 0 || i + |pattern| <= |bytes|) && i + |pattern| >= |bytes|
    ensures var es := Outcomes(t, pid, start, size, pattern, mask);
      FirstStop(es, o + i) == FirstStop(es, o + Step(|pattern|))
  {
  }

  /** What the scan of one readable chunk decides: the `i` loop stopped at
      index `i` with `probe`, all earlier indices having mismatched. */
  lemma ChunkOutcome(t: Vmm, pid: u32, start: u64, size: nat, pattern: seq<bv8>, mask: string,
                     o: nat, bytes: seq<bv8>, i: nat, probe: Probe)
    requires |pattern| < ChunkSize && ChunkBoundary(o, |pattern|) && o <= size
    requires ChunkRead(t, pid, start, size, o) == Some(bytes)
    requires i == 0 || i + |pattern| <= |bytes|
    requires forall i' :: 0 <= i' < i ==> MatchFrom(bytes, i', pattern, mask, 0) == Mismatch
    requires probe == Mismatch ==> i + |pattern| >= |bytes|
    requires probe != Mismatch ==> i + |pattern| < |bytes| && MatchFrom(bytes, i, pattern, mask, 0) == probe
    ensures var es := Outcomes(t, pid, start, size, pattern, mask);
      (probe == Match ==> FirstStop(es, o) == Found(o + i)) &&
      (probe == Fault ==> FirstStop(es, o) == Aborted) &&
      (probe == Mismatch ==> FirstStop(es, o) == FirstStop(es, o + Step(|pattern|)))
  {
    ChunkPrefixPassedOver(t, pid, start, size, pattern, mask, o, bytes, i);
    if probe != Mismatch {
      ExamineInChunk(t, pid, start, size, pattern, mask, o, bytes, i);
      OutcomeAt(t, pid, start, size, pattern, mask, o + i);
    } else {
      ChunkExhausted(t, pid, start, size, pattern, mask, o, bytes, i);
    }
  }

  /** Pattern index `j` is covered by the mask and, when the mask says `'x'`,
      the process holds the pattern's byte at `addr + j`. */
  ghost predicate MemoryByteMatches(t: Vmm, pid: u32, start: u64, p: nat, pattern: seq<bv8>, mask: string, j: nat)
    requires j < |pattern|
  {
    j < |mask| && (mask[j] == 'x' ==> (pid, start + p + j) in t.memory && t.memory[(pid, start + p + j)] == pattern[j])
  }

  /** The masked pattern lies in process memory at `start + p`. */
  ghost predicate PatternAt(t: Vmm, pid: u32, start: u64, p: nat, pattern: seq<bv8>, mask: string) {
    forall j :: 0 <= j < |pattern| ==> MemoryByteMatches(t, pid, start, p, pattern, mask, j)
  }

  /** Where the range does not wrap past 2^64, a match at `p` means the pattern
      is in memory at `start + p`; when the whole range is readable, every
      reachable position is compared, it matches exactly when the pattern is
      there, and a mask as long as the pattern never faults. */
  lemma ExamineMeaning(t: Vmm, pid: u32, start: u64, size: nat, pattern: seq<bv8>, mask: string, p: nat)
    requires |pattern| < ChunkSize && p + |pattern| < size && start + size <= TWO_64
    ensures Examine(t, pid, start, size, pattern, mask, p) == Compared(Match) ==>
              PatternAt(t, pid, start, p, pattern, mask)
    ensures Readable(t, pid, start, size) ==>
              Examine(t, pid, start, size, pattern, mask, p).Compared? &&
              (Examine(t, pid, start, size, pattern, mask, p) == Compared(Match) <==>
                 PatternAt(t, pid, start, p, pattern, mask))
    ensures Readable(t, pid, start, size) && |pattern| <= |mask| ==>
              Examine(t, pid, start, size, pattern, mask, p) != Compared(Fault)
  {
    var o := ChunkStart(p, |pattern|);
    var rs := ReadSize(size, o);
    assert Add64(start, o) == start + o;
    if Readable(t, pid, start, size) {
      ReadableWithin(t, pid, start, size, o, rs);
    }
    var chunk := ChunkRead(t, pid, start, size, o);
    if chunk.Some? {
      ChunkMatchMeaning(t, pid, start, o, chunk.value, p, pattern, mask);
    }
  }

  lemma ReadableWithin(t: Vmm, pid: u32, start: int, size: nat, o: nat, n: nat)
    requires Readable(t, pid, start, size) && o + n <= size
    ensures Readable(t, pid, start + o, n)
  {
  }

  /** Comparing against the bytes of a chunk read at `start + o` is comparing
      against memory. */
  lemma ChunkMatchMeaning(t: Vmm, pid: u32, start: u64, o: nat, bytes: seq<bv8>, p: nat,
                          pattern: seq<bv8>, mask: string)
    requires o <= p && p - o + |pattern| <= |bytes|
    requires forall k :: 0 <= k < |bytes| ==>
               (pid, start + o + k) in t.memory && bytes[k] == t.memory[(pid, start + o + k)]
    ensures MatchFrom(bytes, p - o, pattern, mask, 0) == Match <==> PatternAt(t, pid, start, p, pattern, mask)
    ensures |pattern| <= |mask| ==> MatchFrom(bytes, p - o, pattern, mask, 0) != Fault
  {
    var i := p - o;
    MatchFromMeaning(bytes, i, pattern, mask, 0);
    forall j | 0 <= j < |pattern|
      ensures MaskedByteEqual(bytes, i, pattern, mask, j) <==> MemoryByteMatches(t, pid, start, p, pattern, mask, j)
    {
      var k := i + j;
      var b := bytes[k];
      assert b == t.memory[(pid, start + o + k)];
    }
  }

  /** A scan that meets no fault never aborts. */
  lemma {:induction false} NoFaultNoAbort(es: seq<Examined>, p0: nat)
    requires forall q :: 0 <= q < |es| ==> es[q] != Compared(Fault)
    ensures !FirstStop(es, p0).Aborted?
    decreases |es| - p0
  {
    if p0 < |es| {
      NoFaultNoAbort(es, p0 + 1);
    }
  }

  /** Over a readable range that does not wrap, with a mask covering the
      pattern, the scan finds the lowest position at which the pattern lies in
      memory, or reports nothing when there is none. Positions `p` with
      `p + pattern.Length >= size`, the last one included, are never
      reported. */
  lemma ReadableRangeScan(t: Vmm, pid: u32, start: u64, size: nat, pattern: seq<bv8>, mask: string)
    requires |pattern| < ChunkSize && start + size <= TWO_64 && |pattern| <= |mask|
    requires Readable(t, pid, start, size)
    ensures var r := FirstStop(Outcomes(t, pid, start, size, pattern, mask), 0);
      !r.Aborted? &&
      (r.Found? ==> r.pos + |pattern| < size && PatternAt(t, pid, start, r.pos, pattern, mask) &&
                    forall q :: 0 <= q < r.pos ==> !PatternAt(t, pid, start, q, pattern, mask)) &&
      (r.NotFound? ==> forall q :: 0 <= q && q + |pattern| < size ==> !PatternAt(t, pid, start, q, pattern, mask))
  {
    var es := Outcomes(t, pid, start, size, pattern, mask);
    forall q | 0 <= q < |es|
      ensures es[q].Compared? && es[q] != Compared(Fault)
      ensures es[q] == Compared(Match) <==> PatternAt(t, pid, start, q, pattern, mask)
    {
      OutcomeAt(t, pid, start, size, pattern, mask, q);
      ExamineMeaning(t, pid, start, size, pattern, mask, q);
    }
    NoFaultNoAbort(es, 0);
    var r := FirstStop(es, 0);
    if r.Found? {
      FoundIsFirstMatch(es, 0);
    } else if r.NotFound? {
      NotFoundMeansNoMatch(es, 0);
    }
  }

  /** The inner `j` loop at buffer index `i`; running past the mask is the
      exception that ends the scan. */
  method CompareAt(buffer: array<bv8>, readSize: nat, i: nat, pattern: seq<bv8>, mask: string)
    returns (probe: Probe)
    requires readSize <= buffer.Length && i + |pattern| < readSize
    ensures probe == MatchFrom(buffer[..readSize], i, pattern, mask, 0)
  {
    var found := true;
    var j := 0;
    while j < |pattern|
      invariant 0 <= j <= |pattern|
      invariant MatchFrom(buffer[..readSize], i, pattern, mask, 0) ==
                if found then MatchFrom(buffer[..readSize], i, pattern, mask, j) else Mismatch
    {
      if j >= |mask| {
        return Fault;
      }
      if mask[j] == 'x' && buffer[i + j] != pattern[j] {
        found := false;
        break;
      }
      j := j + 1;
    }
    probe := if found then Match else Mismatch;
  }

  /** The `i` loop over one chunk held in `buffer[..readSize]`: the first index
      that matched or faulted, or, when every index mismatched, the index where
      the loop stopped. */
  method SearchChunk(buffer: array<bv8>, readSize: nat, pattern: seq<bv8>, mask: string)
    returns (i: nat, probe: Probe)
    requires readSize <= buffer.Length
    ensures i == 0 || i + |pattern| <= readSize
    ensures forall i' :: 0 <= i' < i ==> MatchFrom(buffer[..readSize], i', pattern, mask, 0) == Mismatch
    ensures probe == Mismatch ==> i + |pattern| >= readSize
    ensures probe != Mismatch ==>
              i + |pattern| < readSize && MatchFrom(buffer[..readSize], i, pattern, mask, 0) == probe
  {
    i := 0;
    while i < readSize - |pattern|
      invariant i == 0 || i + |pattern| <= readSize
      invariant forall i' :: 0 <= i' < i ==> MatchFrom(buffer[..readSize], i', pattern, mask, 0) == Mismatch
    {
      probe := CompareAt(buffer, readSize, i, pattern, mask);
      if probe != Mismatch {
        return;
      }
      i := i + 1;
    }
    probe := Mismatch;
  }

  /** One pass of the chunk loop at `offset`: read the chunk into `buffer` and
      search it. `stop` is set when the scan ends in this chunk (a match or an
      exception), with the value `FindSignature` then returns. */
  method ScanChunkAt(t: Vmm, pid: u32, start: u64, size: u32, pattern: seq<bv8>, mask: string,
                     buffer: array<bv8>, offset: nat)
    returns (stop: bool, r: u64)
    requires buffer.Length == ChunkSize && |pattern| != ChunkSize && offset < size
    requires |pattern| < ChunkSize ==> ChunkBoundary(offset, |pattern|)
    modifies buffer
    ensures |pattern| > ChunkSize ==> !stop
    ensures |pattern| < ChunkSize ==>
      var es := Outcomes(t, pid, start, size, pattern, mask);
      if stop then FirstStop(es, offset) != NotFound && r == ResultAddress(start, FirstStop(es, offset))
      else FirstStop(es, offset) == FirstStop(es, offset + Step(|pattern|))
  {
    var currentAddr := Add64(start, offset);
    var readSize := Min(ChunkSize, size - offset);
    var chunk := MemRead(t, pid, currentAddr, readSize);
    if chunk.None? {
      if |pattern| < ChunkSize {
        UnreadableChunkIsSkipped(t, pid, start, size, pattern, mask, offset);
      }
      return false, 0;
    }
    var bytes := chunk.value;
    forall n | 0 <= n < readSize {
      buffer[n] := bytes[n];
    }
    assert buffer[..readSize] == bytes;
    var i, probe := SearchChunk(buffer, readSize, pattern, mask);
    if |pattern| < ChunkSize {
      assert buffer[..readSize] == bytes;
      ChunkOutcome(t, pid, start, size, pattern, mask, offset, bytes, i, probe);
    }
    if probe == Fault {
      return true, 0;
    }
    if probe == Match {
      Add64Twice(start, offset, i);
      return true, Add64(currentAddr, i);
    }
    return false, 0;
  }

  /** `FindSignature`: the chunk loop, with `offset` advancing by
      `chunkSize - pattern.Length` in unchecked `ulong` arithmetic. A pattern of
      exactly 64 KB would make that step 0 and the loop never end. */
  method FindSignature(t: Vmm, pid: u32, startAddress: u64, size: u32, pattern: seq<bv8>, mask: string)
    returns (r: u64)
    requires |pattern| != ChunkSize && |pattern| < 0x8000_0000
    ensures r == SignatureAddress(t, pid, startAddress, size, pattern, mask)
  {
    var buffer := new bv8[ChunkSize];
    var len := |pattern|;
    var step := Sub64(ChunkSize, len);
    var offset: u64 := 0;
    ghost var es := if len < ChunkSize then Outcomes(t, pid, startAddress, size, pattern, mask) else [];
    while offset < size
      invariant len < ChunkSize ==> step == Step(len) && ChunkBoundary(offset, len)
      invariant len < ChunkSize ==> FirstStop(es, 0) == FirstStop(es, offset)
      invariant len > ChunkSize ==> step == TWO_64 - (len - ChunkSize) && (offset == 0 || offset >= size)
      decreases size - offset
    {
      var stop, found := ScanChunkAt(t, pid, startAddress, size, pattern, mask, buffer, offset);
      if stop {
        return found;
      }
      if len < ChunkSize {
        NextChunkBoundary(offset, len);
      }
      offset := Add64(offset, step);
    }
    return 0;
  }
}

/** The loader's handling of the kernel file (boot/load.c). */
module ElfLoader {
  import opened Bits
  import opened BootInformation
  import opened Bytes
  import opened ElfImage

  datatype Status = Success | LoadError | Unsupported | FirmwareError

  // ---------------------------------------------------------------- validation

  /** `overlaps_previous_segment`: 64-bit sums, none of which can wrap for segments already checked. */
  method OverlapsPrevious(segments: seq<Segment>, index: nat, ghost size: u64) returns (overlaps: bool)
    requires index < |segments| && ValidSegment(segments[index], size)
    requires forall i :: 0 <= i < index && segments[i].Occupies() ==> ValidSegment(segments[i], size)
    ensures overlaps <==> exists i :: 0 <= i < index && segments[i].Occupies() && Overlaps(segments[i], segments[index])
  {
    hide ValidSegment;
    var current := segments[index];
    SumsAreExact(current, size);
    for i := 0 to index
      invariant forall j :: 0 <= j < i && segments[j].Occupies() ==> !Overlaps(segments[j], current)
    {
      var other := segments[i];
      if other.kind != PT_LOAD || other.memsz == 0 { continue; }
      SumsAreExact(other, size);
      if current.vaddr >= Wrap(other.vaddr + other.memsz) { continue; }
      if other.vaddr < Wrap(current.vaddr + current.memsz) {
        assert Overlaps(segments[i], current);
        return true;
      }
    }
    overlaps := false;
  }

  /** What the bounds say after `n` headers: untouched, or tight. */
  ghost predicate Bounds(segments: seq<Segment>, n: nat, low: u64, high: u64)
    requires n <= |segments|
  {
    if exists i :: 0 <= i < n && segments[i].Occupies() then Encloses(segments, n, Range(low, high))
    else low == U64 - 1 && high == 0
  }

  lemma BoundsSkip(segments: seq<Segment>, n: nat, low: u64, high: u64)
    requires n < |segments| && Bounds(segments, n, low, high) && !segments[n].Occupies()
    ensures Bounds(segments, n + 1, low, high)
  {
    hide PageStart;
    if exists i :: 0 <= i < n && segments[i].Occupies() {
      var i :| 0 <= i < n && Begins(segments[i], low);
      var j :| 0 <= j < n && Ends(segments[j], high);
      assert Encloses(segments, n + 1, Range(low, high));
    }
  }

  lemma BoundsGrow(segments: seq<Segment>, n: nat, low: u64, high: u64, begin: u64, end: u64)
    requires n < |segments| && Bounds(segments, n, low, high) && segments[n].Occupies()
    requires begin == PageStart(segments[n].vaddr) && end == PageStart(segments[n].vaddr + segments[n].memsz + 4095)
    requires begin < U64 - 1
    ensures Bounds(segments, n + 1, if begin < low then begin else low, if end > high then end else high)
  {
    hide PageStart;
    var low' := if begin < low then begin else low;
    var high' := if end > high then end else high;
    var range := Range(low', high');
    assert Begins(segments[n], begin) && Ends(segments[n], end);
    assert Inside(segments[n], range);
    if exists i :: 0 <= i < n && segments[i].Occupies() {
      assert Encloses(segments, n, Range(low, high));
      var i :| 0 <= i < n && Begins(segments[i], low);
      var j :| 0 <= j < n && Ends(segments[j], high);
      assert forall k :: 0 <= k < n ==> Inside(segments[k], Range(low, high));
      assert forall k :: 0 <= k < n ==> Inside(segments[k], range);
    }
    assert exists i :: 0 <= i < n + 1 && Begins(segments[i], low');
    assert exists i :: 0 <= i < n + 1 && Ends(segments[i], high');
    assert Encloses(segments, n + 1, range);
  }

  /** Dynamic linking is the first thing wrong with the file. */
  ghost predicate Interpreted(segments: seq<Segment>, size: u64, i: nat)
    requires i < |segments|
  {
    segments[i].kind in {PT_DYNAMIC, PT_INTERP} && forall j :: 0 <= j < i ==> !Rejected(segments, size, j)
  }

  lemma NotInterpreted(segments: seq<Segment>, size: u64, n: nat)
    requires n <= |segments| && forall j :: 0 <= j < n ==> !Rejected(segments, size, j)
    requires n < |segments| ==> segments[n].kind == PT_LOAD && Rejected(segments, size, n)
    ensures forall i :: 0 <= i < |segments| ==> !Interpreted(segments, size, i)
  {
    hide ValidSegment;
    forall i | 0 <= i < |segments|
      ensures !Interpreted(segments, size, i)
    {
      if i < n { assert !Rejected(segments, size, i); }
    }
  }

  /** `inspect_segments` */
  method InspectSegments(segments: seq<Segment>, size: u64, entry: u64) returns (status: Status, range: Range)
    ensures status in {Success, LoadError, Unsupported}
    ensures status == Success ==> Loadable(segments, size, entry, range)
    ensures status != Success ==> forall r :: !Loadable(segments, size, entry, r)
    ensures status == Unsupported <==> exists i :: 0 <= i < |segments| && Interpreted(segments, size, i)
  {
    hide PageStart, ValidSegment, And, AndNot, Bounds, Encloses;
    range := Range(0, 0);
    var low: u64, high: u64, entryValid := U64 - 1, 0, false;
    NoBounds(segments);
    for i := 0 to |segments|
      invariant forall j :: 0 <= j < i ==> !Rejected(segments, size, j)
      invariant entryValid <==> HasEntry(segments, entry, i)
      invariant Bounds(segments, i, low, high)
    {
      var p := segments[i];
      if p.kind == PT_DYNAMIC || p.kind == PT_INTERP {
        assert Rejected(segments, size, i) && Interpreted(segments, size, i);
        return Unsupported, range;
      }
      if p.kind != PT_LOAD {
        BoundsSkip(segments, i, low, high);
        continue;
      }
      if !ValidSegment(p, size) {
        assert Rejected(segments, size, i);
        NotInterpreted(segments, size, i);
        return LoadError, range;
      }
      if p.memsz == 0 {
        BoundsSkip(segments, i, low, high);
        continue;
      }
      PreviousValid(segments, size, i);
      var overlaps := OverlapsPrevious(segments, i, size);
      if overlaps {
        assert Rejected(segments, size, i);
        NotInterpreted(segments, size, i);
        return LoadError, range;
      }
      SumsAreExact(p, size);
      if And(p.flags, 1) != 0 && entry >= p.vaddr && entry - p.vaddr < p.filesz { entryValid := true; }
      PageMask(p.vaddr);
      PageMask(p.vaddr + p.memsz + 4095);
      var begin := AndNot(p.vaddr, 4095);
      var end := AndNot(Wrap(Wrap(p.vaddr + p.memsz) + 4095), 4095);
      BoundsGrow(segments, i, low, high, begin, end);
      if begin < low { low := begin; }
      if end > high { high := end; }
    }
    status := LoadError;
    NotInterpreted(segments, size, |segments|);
    if entryValid {
      BoundsEnclose(segments, entry, low, high);
      forall r | Loadable(segments, size, entry, r)
        ensures r == Range(low, high)
      {
        RangeIsUnique(segments, r, Range(low, high));
      }
    }
    if !entryValid || high <= low || high - low > SPAN_LIMIT { return; }
    status, range := Success, Range(low, high);
  }

  lemma NoBounds(segments: seq<Segment>)
    ensures Bounds(segments, 0, U64 - 1, 0)
  {
  }

  lemma PreviousValid(segments: seq<Segment>, size: u64, n: nat)
    requires n < |segments| && forall j :: 0 <= j < n ==> !Rejected(segments, size, j)
    ensures forall j :: 0 <= j < n && segments[j].Occupies() ==> ValidSegment(segments[j], size)
  {
    hide ValidSegment;
    forall j | 0 <= j < n && segments[j].Occupies()
      ensures ValidSegment(segments[j], size)
    {
      assert !Rejected(segments, size, j);
    }
  }

  lemma BoundsEnclose(segments: seq<Segment>, entry: u64, low: u64, high: u64)
    requires Bounds(segments, |segments|, low, high) && HasEntry(segments, entry, |segments|)
    ensures Encloses(segments, |segments|, Range(low, high)) && low < high
  {
    hide PageStart, And;
    var i :| 0 <= i < |segments| && Begins(segments[i], low);
    assert Inside(segments[i], Range(low, high));
  }

  // ---------------------------------------------------------------- placement

  /** Memory from `base` to `end` is the image of the first `n` segments. */
  ghost predicate Placed(data: seq<byte>, segments: seq<Segment>, n: nat, range: Range, memory: array<byte>)
    reads memory
    requires n <= |segments| && |data| < U64 && AllValid(segments, |data|) && range.end <= memory.Length
  {
    forall a :: range.base <= a < range.end ==> PlacedAt(data, segments[..n], a, memory[a])
  }

  /** The inner loop of `copy_segments`: the file part of one segment. */
  method CopySegment(data: seq<byte>, s: Segment, memory: array<byte>)
    requires |data| < U64 && s.kind == PT_LOAD && ValidSegment(s, |data|) && memory.Length == PMM_LIMIT
    modifies memory
    ensures forall a :: 0 <= a < PMM_LIMIT && s.FileBacks(a) ==> memory[a] == data[s.offset + (a - s.vaddr)]
    ensures forall a :: 0 <= a < PMM_LIMIT && !s.FileBacks(a) ==> memory[a] == old(memory[a])
  {
    hide And;
    for j := 0 to s.filesz
      invariant forall a :: s.vaddr <= a < s.vaddr + j ==> memory[a] == data[s.offset + (a - s.vaddr)]
      invariant forall a :: 0 <= a < PMM_LIMIT && !(s.vaddr <= a < s.vaddr + j) ==> memory[a] == old(memory[a])
    {
      memory[s.vaddr + j] := data[s.offset + j];
    }
  }

  lemma PlacedMore(data: seq<byte>, segments: seq<Segment>, n: nat, a: nat, before: byte, after: byte)
    requires n < |segments| && |data| < U64 && AllValid(segments, |data|) && DisjointSegments(segments)
    requires PlacedAt(data, segments[..n], a, before)
    requires segments[n].FileBacks(a) ==> after == data[segments[n].offset + (a - segments[n].vaddr)]
    requires !segments[n].FileBacks(a) ==> after == before
    ensures PlacedAt(data, segments[..n + 1], a, after)
  {
    hide And;
    var more := segments[..n + 1];
    forall i | 0 <= i < n + 1 && more[i].FileBacks(a)
      ensures after == data[more[i].offset + (a - more[i].vaddr)]
    {
      if i < n {
        assert segments[..n][i] == segments[i];
        if segments[n].FileBacks(a) { OneFileByte(segments, |data|, i, n, a); }
      }
    }
    if forall i :: 0 <= i < n + 1 ==> !more[i].FileBacks(a) {
      assert !more[n].FileBacks(a);
      assert forall i :: 0 <= i < n ==> segments[..n][i] == more[i];
    }
  }

  /** `copy_segments`: zero the whole range, then copy every file part. */
  method CopySegments(data: seq<byte>, segments: seq<Segment>, range: Range, memory: array<byte>)
    requires |data| < U64 && AllValid(segments, |data|) && DisjointSegments(segments)
    requires memory.Length == PMM_LIMIT && range.base <= range.end <= PMM_LIMIT
    requires forall i :: 0 <= i < |segments| ==> Inside(segments[i], range)
    modifies memory
    ensures Placed(data, segments, |segments|, range, memory)
    ensures forall a :: 0 <= a < PMM_LIMIT && !(range.base <= a < range.end) ==> memory[a] == old(memory[a])
  {
    hide ValidSegment, AllValid, DisjointSegments;
    for i := 0 to range.end - range.base
      invariant forall a :: range.base <= a < range.base + i ==> memory[a] == 0
      invariant forall a :: 0 <= a < PMM_LIMIT && !(range.base <= a < range.base + i) ==> memory[a] == old(memory[a])
    {
      memory[range.base + i] := 0;
    }
    NothingPlaced(data, segments, range, memory);
    for n := 0 to |segments|
      invariant Placed(data, segments, n, range, memory)
      invariant forall a :: 0 <= a < PMM_LIMIT && !(range.base <= a < range.end) ==> memory[a] == old(memory[a])
    {
      CopyNext(data, segments, n, range, memory);
    }
  }

  lemma NothingPlaced(data: seq<byte>, segments: seq<Segment>, range: Range, memory: array<byte>)
    requires |data| < U64 && AllValid(segments, |data|) && range.end <= memory.Length
    requires forall a :: range.base <= a < range.end ==> memory[a] == 0
    ensures Placed(data, segments, 0, range, memory)
  {
  }

  /** One round of the outer loop of `copy_segments`. */
  method CopyNext(data: seq<byte>, segments: seq<Segment>, n: nat, range: Range, memory: array<byte>)
    requires |data| < U64 && AllValid(segments, |data|) && DisjointSegments(segments) && n < |segments|
    requires memory.Length == PMM_LIMIT && range.base <= range.end <= PMM_LIMIT && Inside(segments[n], range)
    requires Placed(data, segments, n, range, memory)
    modifies memory
    ensures Placed(data, segments, n + 1, range, memory)
    ensures forall a :: 0 <= a < PMM_LIMIT && !(range.base <= a < range.end) ==> memory[a] == old(memory[a])
  {
    hide DisjointSegments, PlacedAt, And;
    var s := segments[n];
    if s.kind == PT_LOAD {
      CopySegment(data, s, memory);
    }
    forall a | range.base <= a < range.end
      ensures PlacedAt(data, segments[..n + 1], a, memory[a])
    {
      PlacedMore(data, segments, n, a, old(memory[a]), memory[a]);
    }
  }

  /** `LOADED_KERNEL` */
  datatype Kernel = Kernel(base: u64, pages: u64, entry: u64)

  /** A file whose headers are in order and whose segments can be loaded into `range`. */
  ghost predicate Accepted(data: seq<byte>, range: Range)
    requires |data| < U64
  {
    && |data| >= HEADER_SIZE && ValidHeader(HeaderOf(data), |data|)
    && Loadable(Programs(data), |data|, HeaderOf(data).entry, range)
  }

  lemma AcceptedParts(data: seq<byte>, range: Range)
    requires |data| < U64 && Accepted(data, range)
    ensures LOW_LIMIT <= range.base < range.end <= PMM_LIMIT && range.end - range.base <= SPAN_LIMIT
    ensures range.base % 4096 == 0 && range.end % 4096 == 0
    ensures AllValid(Programs(data), |data|) && DisjointSegments(Programs(data))
    ensures forall i :: 0 <= i < |Programs(data)| ==> Inside(Programs(data)[i], range)
  {
    hide PageStart, ValidHeader, Programs, AllValid, DisjointSegments, And;
    LoadableIsSound(Programs(data), |data|, HeaderOf(data).entry, range);
  }

  /** The entry point is a byte of executable code that the file provides, inside the image. */
  lemma EntryIsCode(data: seq<byte>, range: Range) returns (i: nat)
    requires |data| < U64 && Accepted(data, range)
    ensures i < |Programs(data)| && range.base <= HeaderOf(data).entry < range.end
    ensures var s := Programs(data)[i];
      And(s.flags, 1) != 0 && s.FileBacks(HeaderOf(data).entry) && ValidSegment(s, |data|)
  {
    hide PageStart, ValidHeader, Programs, And;
    AcceptedParts(data, range);
    var segments := Programs(data);
    i :| 0 <= i < |segments| && segments[i].Occupies() && And(segments[i].flags, 1) != 0 && segments[i].FileBacks(HeaderOf(data).entry);
    assert Inside(segments[i], range);
  }

  /** `place_kernel`; `granted` is the firmware's answer to the request for exactly these pages. */
  method PlaceKernel(data: seq<byte>, granted: bool, memory: array<byte>) returns (status: Status, kernel: Kernel)
    requires |data| < U64 && memory.Length == PMM_LIMIT
    modifies memory
    ensures status == Success <==> granted && exists range :: Accepted(data, range)
    ensures status == FirmwareError <==> !granted && exists range :: Accepted(data, range)
    ensures status == Unsupported <==> |data| >= HEADER_SIZE && ValidHeader(HeaderOf(data), |data|)
                                       && exists i :: 0 <= i < |Programs(data)| && Interpreted(Programs(data), |data|, i)
    ensures status != Success ==> memory[..] == old(memory[..])
    ensures status == Success ==> kernel.base + kernel.pages * PAGE_SIZE <= PMM_LIMIT
    ensures status == Success ==> var range := Range(kernel.base, kernel.base + kernel.pages * PAGE_SIZE);
      && Accepted(data, range) && kernel.entry == HeaderOf(data).entry && AllValid(Programs(data), |data|)
      && Placed(data, Programs(data), |Programs(data)|, range, memory)
      && forall a :: 0 <= a < PMM_LIMIT && !(range.base <= a < range.end) ==> memory[a] == old(memory[a])
  {
    hide ValidHeader, Programs, Loadable, AllValid, DisjointSegments, Placed;
    kernel := Kernel(0, 0, 0);
    if |data| < HEADER_SIZE { return LoadError, kernel; }
    var header := HeaderOf(data);
    if !ValidHeader(header, |data|) { return LoadError, kernel; }
    var programs := Programs(data);
    var range;
    status, range := InspectSegments(programs, |data|, header.entry);
    if status != Success { return; }
    assert Accepted(data, range);
    AcceptedParts(data, range);
    var pages := (range.end - range.base) / PAGE_SIZE;
    if !granted { return FirmwareError, kernel; }
    CopySegments(data, programs, range, memory);
    WholePages(range);
    kernel := Kernel(range.base, pages, header.entry);
  }

  lemma WholePages(range: Range)
    requires range.base <= range.end && range.base % 4096 == 0 && range.end % 4096 == 0
    ensures range.base + (range.end - range.base) / PAGE_SIZE * PAGE_SIZE == range.end
  {
  }

  // ---------------------------------------------------------------- reading the file

  /** The firmware's answer to one `Read`: an error, or how many bytes it says it delivered. */
  datatype Answer = Answer(ok: bool, count: nat)

  /**
    The firmware's `Read`: without an error, and up to the request, it delivers as much of
    the file from the current position as it says.
  */
  method FirmwareRead(file: seq<byte>, position: nat, wanted: nat, buffer: array<byte>, answer: Answer)
    requires position + wanted <= |file| && position + wanted <= buffer.Length
    modifies buffer
    ensures answer.ok && answer.count <= wanted ==>
      buffer[..position + answer.count] == old(buffer[..position]) + file[position..position + answer.count]
    ensures buffer[..position] == old(buffer[..position])
  {
    if answer.ok && answer.count <= wanted {
      for i := 0 to answer.count
        invariant buffer[..position] == old(buffer[..position])
        invariant buffer[position..position + i] == file[position..position + i]
      {
        buffer[position + i] := file[position + i];
      }
      assert buffer[..position + answer.count] == buffer[..position] + buffer[position..position + answer.count];
    }
  }

  /** How many bytes the first `n` answers have delivered. */
  ghost function Delivered(firmware: nat -> Answer, n: nat): nat {
    if n == 0 then 0 else Delivered(firmware, n - 1) + firmware(n - 1).count
  }

  /** Answer `n` has no error, makes progress, and delivers no more than was asked for. */
  ghost predicate Usable(firmware: nat -> Answer, n: nat, length: nat) {
    firmware(n).ok && 0 < firmware(n).count <= length - Delivered(firmware, n)
  }

  /** Reading ends after `n` usable answers: the file is complete, or the next answer is not usable. */
  ghost predicate ReadingEnds(firmware: nat -> Answer, n: nat, length: nat) {
    && (forall i :: 0 <= i < n ==> Usable(firmware, i, length))
    && (Delivered(firmware, n) == length || !Usable(firmware, n, length))
  }

  /** The firmware's answers determine where reading ends. */
  lemma ReadingEndsOnce(firmware: nat -> Answer, n: nat, n': nat, length: nat)
    requires ReadingEnds(firmware, n, length) && ReadingEnds(firmware, n', length)
    ensures n == n'
  {
    assert !Usable(firmware, n, length) && !Usable(firmware, n', length);
  }

  /**
    `read_entire_file`, for any answers of the firmware: short reads are continued; the
    first error, and the first answer without progress or with too many bytes, end it.
  */
  method ReadEntireFile(file: seq<byte>, buffer: array<byte>, length: nat, firmware: nat -> Answer)
    returns (status: Status, n: nat)
    requires length <= |file| && length <= buffer.Length
    modifies buffer
    ensures ReadingEnds(firmware, n, length)
    ensures status == if Delivered(firmware, n) == length then Success
                      else if !firmware(n).ok then FirmwareError else LoadError
    ensures status == Success ==> buffer[..length] == file[..length]
  {
    var total := 0;
    n := 0;
    while total < length
      invariant total <= length && buffer[..total] == file[..total]
      invariant (forall i :: 0 <= i < n ==> Usable(firmware, i, length)) && Delivered(firmware, n) == total
      decreases length - total
    {
      var answer := firmware(n);
      FirmwareRead(file, total, length - total, buffer, answer);
      if !answer.ok { return FirmwareError, n; }
      if answer.count == 0 || answer.count > length - total { return LoadError, n; }
      assert file[..total + answer.count] == file[..total] + file[total..total + answer.count];
      total, n := total + answer.count, n + 1;
    }
    status := Success;
  }
}

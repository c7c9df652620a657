/** The bounded slice reader: resolving a user range against the file size,
    and a cursor that serves sequential reads restricted to that range. */
module Slice {
  import opened Bytes

  /** A resolved, absolute byte range [start, end) of the file. */
  datatype ByteRange = ByteRange(start: nat, end: nat)

  /** Why a range is refused; the values are the resolved (u64) bounds. */
  datatype RangeError =
    | InvalidRange(start: nat, end: nat)
    | OutOfBounds(start: nat, end: nat, fileSize: nat)

  /** Why constructing a reader fails. */
  datatype OpenError = CannotOpen | BadRange(reason: RangeError)

  predicate IsOptI64(v: Option<int>) {
    v.Some? ==> IsI64(v.value)
  }

  /** A user bound made absolute: a negative value counts back from the end
      of the file. The sum is computed in i64 and the result reinterpreted
      as u64, so a bound before the start of the file wraps to a huge value
      rather than going negative. */
  function ResolveBound(v: int, fileSize: nat): (r: nat)
    requires IsI64(v) && fileSize <= I64_MAX
    ensures r < U64_MODULUS
    ensures 0 <= v ==> r == v
    ensures v < 0 && 0 <= fileSize + v ==> r == fileSize + v
    ensures fileSize + v < 0 ==> r > I64_MAX && r == fileSize + v + U64_MODULUS
  {
    AsU64(if v < 0 then fileSize + v else v)
  }

  /** Range resolution of the reader's constructor: an absent start means 0,
      an absent end means the file size; start > end is refused first, and
      only then a bound beyond the file size. */
  function ResolveRange(start: Option<int>, end: Option<int>, fileSize: nat): (r: Result<ByteRange, RangeError>)
    requires IsOptI64(start) && IsOptI64(end) && fileSize <= I64_MAX
    ensures r.Ok? ==> r.value.start <= r.value.end <= fileSize
    ensures r.Err? && r.error.InvalidRange? ==> r.error.start > r.error.end
    ensures r.Err? && r.error.OutOfBounds? ==>
              r.error.start <= r.error.end && r.error.end > fileSize && r.error.fileSize == fileSize
    ensures var s := ResolveBound(if start.Some? then start.value else 0, fileSize);
            var e := ResolveBound(if end.Some? then end.value else fileSize, fileSize);
            (s > e ==> r == Err(InvalidRange(s, e))) &&
            (s <= e && e > fileSize ==> r == Err(OutOfBounds(s, e, fileSize))) &&
            (s <= e <= fileSize ==> r == Ok(ByteRange(s, e)))
  {
    var s := ResolveBound(if start.Some? then start.value else 0, fileSize);
    var e := ResolveBound(if end.Some? then end.value else fileSize, fileSize);
    if s > e then Err(InvalidRange(s, e))
    else if s > fileSize || e > fileSize then Err(OutOfBounds(s, e, fileSize))
    else Ok(ByteRange(s, e))
  }

  /** A bound as a plain offset from the start of the file, without the u64
      reinterpretation (it may be negative). */
  function Offset(v: int, fileSize: nat): int {
    if v < 0 then fileSize + v else v
  }

  /** Reference meaning of resolution: it succeeds exactly when the two plain
      offsets satisfy 0 <= start <= end <= fileSize, and then yields them. The
      wrap-around of the u64 cast never turns a bad range into a good one. */
  lemma ResolveRangeMeaning(start: Option<int>, end: Option<int>, fileSize: nat)
    requires IsOptI64(start) && IsOptI64(end) && fileSize <= I64_MAX
    ensures var s := Offset(if start.Some? then start.value else 0, fileSize);
            var e := Offset(if end.Some? then end.value else fileSize, fileSize);
            ResolveRange(start, end, fileSize).Ok? <==> 0 <= s <= e <= fileSize
    ensures var s := Offset(if start.Some? then start.value else 0, fileSize);
            var e := Offset(if end.Some? then end.value else fileSize, fileSize);
            ResolveRange(start, end, fileSize).Ok? ==>
              ResolveRange(start, end, fileSize).value == ByteRange(s, e)
  {
  }

  /** Both bounds absent: the whole file. */
  lemma ResolveWholeFile(fileSize: nat)
    requires fileSize <= I64_MAX
    ensures ResolveRange(None, None, fileSize) == Ok(ByteRange(0, fileSize))
  {
  }

  /** A negative bound whose offset stays inside the file resolves to
      fileSize + v; a non-negative bound is kept as is. */
  lemma ResolveNegativeBounds(start: int, end: int, fileSize: nat)
    requires IsI64(start) && IsI64(end) && fileSize <= I64_MAX
    requires 0 <= Offset(start, fileSize) <= Offset(end, fileSize) <= fileSize
    ensures ResolveRange(Some(start), Some(end), fileSize)
         == Ok(ByteRange(Offset(start, fileSize), Offset(end, fileSize)))
  {
    ResolveRangeMeaning(Some(start), Some(end), fileSize);
  }

  /** The order of the checks is observable through the wrap-around: with
      start = -20 and end = -15 on a 10-byte file both bounds wrap, the
      start <= end check passes and the bounds check fails; with end = 3
      instead, only the start wraps and the range is reported invalid. */
  lemma ResolveWrapExamples()
    ensures ResolveRange(Some(-20), Some(-15), 10)
         == Err(OutOfBounds(U64_MODULUS - 10, U64_MODULUS - 5, 10))
    ensures ResolveRange(Some(-20), Some(3), 10)
         == Err(InvalidRange(U64_MODULUS - 10, 3))
    ensures ResolveRange(Some(5), Some(-20), 10)
         == Err(OutOfBounds(5, U64_MODULUS - 10, 10))
  {
  }

  /** The reader over one open file. `file` stands for the contents behind
      the file handle; `current` is the cursor, the only field that changes. */
  class SliceFileReader {
    const file: seq<u8>
    const start: nat
    const end: nat
    var current: nat

    ghost predicate Valid()
      reads this
    {
      start <= current <= end <= |file|
    }

    /** The bytes the reader exposes. */
    ghost function Slice(): seq<u8>
      reads this
      requires Valid()
    {
      file[start..end]
    }

    /** The bytes not yet delivered. */
    ghost function Remaining(): seq<u8>
      reads this
      requires Valid()
    {
      file[current..end]
    }

    /** The struct literal built once the range has been checked. */
    constructor (file: seq<u8>, range: ByteRange)
      requires range.start <= range.end <= |file|
      ensures Valid()
      ensures this.file == file && start == range.start && end == range.end
      ensures current == start
    {
      this.file := file;
      start := range.start;
      end := range.end;
      current := range.start;
    }

    /** Logical size of the visible slice, whatever the file size or cursor. */
    function Len(): (n: nat)
      reads this
      requires Valid()
      ensures n == |Slice()|
      ensures n <= |file|
    {
      end - start
    }

    /** Fills the front of `buffer` from the cursor, never past `end`, and
        advances the cursor by the number of bytes delivered. */
    method Read(buffer: array<u8>) returns (k: nat)
      requires Valid()
      modifies this, buffer
      ensures Valid()
      ensures k == Min(buffer.Length, old(end - current))
      ensures current == old(current) + k
      ensures buffer[..k] == file[old(current)..current]
      ensures buffer[k..] == old(buffer[k..])
      ensures old(Remaining()) == buffer[..k] + Remaining()
      ensures old(current) == end ==> k == 0 && current == end && buffer[..] == old(buffer[..])
    {
      var bytesToRead := buffer.Length;
      var bytesLeft := end - current;
      if bytesLeft == 0 {
        return 0;
      }
      if bytesToRead > bytesLeft {
        bytesToRead := bytesLeft;
      }
      k := ReadAt(file, current, buffer, bytesToRead);
      current := current + k;
    }
  }

  /** Seeking the handle to `pos` and reading `n` bytes into the front of
      `buffer`. */
  method ReadAt(file: seq<u8>, pos: nat, buffer: array<u8>, n: nat) returns (k: nat)
    requires pos + n <= |file| && n <= buffer.Length
    modifies buffer
    ensures k == n
    ensures buffer[..n] == file[pos..pos + n]
    ensures buffer[n..] == old(buffer[n..])
  {
    var i := 0;
    while i < n
      invariant 0 <= i <= n
      invariant forall j :: 0 <= j < i ==> buffer[j] == file[pos + j]
      invariant forall j :: i <= j < buffer.Length ==> buffer[j] == old(buffer[j])
    {
      buffer[i] := file[pos + i];
      i := i + 1;
    }
    k := n;
  }

  /** The constructor `new_from_path`: `file` is None when the path cannot
      be opened. On success the cursor starts at the resolved start. */
  method NewFromPath(file: Option<seq<u8>>, start: Option<int>, end: Option<int>)
    returns (r: Result<SliceFileReader, OpenError>)
    requires IsOptI64(start) && IsOptI64(end)
    requires file.Some? ==> |file.value| <= I64_MAX
    ensures file.None? ==> r == Err(CannotOpen)
    ensures file.Some? && ResolveRange(start, end, |file.value|).Err? ==>
              r == Err(BadRange(ResolveRange(start, end, |file.value|).error))
    ensures file.Some? && ResolveRange(start, end, |file.value|).Ok? ==>
              r.Ok? && fresh(r.value) && r.value.Valid() &&
              r.value.file == file.value &&
              ByteRange(r.value.start, r.value.end) == ResolveRange(start, end, |file.value|).value &&
              r.value.current == r.value.start
  {
    if file.None? {
      return Err(CannotOpen);
    }
    var fileSize := |file.value|;
    var resolved := ResolveRange(start, end, fileSize);
    if resolved.Err? {
      return Err(BadRange(resolved.error));
    }
    var reader := new SliceFileReader(file.value, resolved.value);
    r := Ok(reader);
  }

  /** The caller's loop: read until a read returns 0. With a non-empty buffer
      this delivers exactly the bytes between the cursor and `end`, in order,
      and leaves the reader exhausted. */
  method ReadToEnd(reader: SliceFileReader, buffer: array<u8>) returns (data: seq<u8>)
    requires reader.Valid() && buffer.Length > 0
    modifies reader, buffer
    ensures reader.Valid() && reader.current == reader.end
    ensures data == old(reader.Remaining())
  {
    data := [];
    while true
      invariant reader.Valid()
      invariant data + reader.Remaining() == old(reader.Remaining())
      decreases reader.end - reader.current
    {
      var k := reader.Read(buffer);
      if k == 0 {
        break;
      }
      data := data + buffer[..k];
    }
  }
}

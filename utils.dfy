/** The helpers of `utils.rs`: the lenient name normaliser, masked signature
    comparison, the region-by-region signature scan and the module
    enumeration. Every Win32 call is replaced by an input: an address-space
    query, a byte memory, and the per-slot results of the module calls. */
module Utils {
  import opened Machine
  import opened Utf8
  import opened StdText
  import opened Errors
  import opened Types

  // ---------------------------------------------------------------------
  // Name normalisation
  // ---------------------------------------------------------------------

  /** `transform_name`: like `to_string_lowercase`, but every failure is
      swallowed by `unwrap_or_default`, which yields the empty string. */
  function TransformName(b: seq<u8>): seq<u8> {
    var c := match FromBytesUntilNul(b) case Ok(p) => p case Err(_) => [];
    var s := match ToStr(c) case Ok(t) => t case Err(_) => [];
    AsciiLowercase(s)
  }

  /** The name is the ASCII-lowercased text before the first NUL; it is ""
      when there is no NUL or that text is not well-formed UTF-8. It is
      itself NUL-free, well-formed and free of ASCII capitals. */
  lemma TransformNameMeaning(b: seq<u8>)
    ensures NulFree(b) ==> TransformName(b) == []
    ensures forall k :: 0 <= k < |b| && b[k] == 0 && NulFree(b[..k]) ==>
      TransformName(b) == if ValidUtf8(b[..k]) then AsciiLowercase(b[..k]) else []
    ensures |TransformName(b)| < |b| || TransformName(b) == []
    ensures NulFree(TransformName(b)) && ValidUtf8(TransformName(b))
    ensures forall i :: 0 <= i < |TransformName(b)| ==> !IsAsciiUpper(TransformName(b)[i])
  {
    FromBytesUntilNulMeaning(b);
    FromBytesUntilNulFirst(b);
    var c := match FromBytesUntilNul(b) case Ok(p) => p case Err(_) => [];
    var s := match ToStr(c) case Ok(t) => t case Err(_) => [];
    LowercasePreservesUtf8(s);
    AsciiLowercaseMeaning(s);
  }

  /** Bytes after the first NUL never influence the name. */
  lemma TransformNameIgnoresTail(b: seq<u8>, tail: seq<u8>)
    requires !NulFree(b)
    ensures TransformName(b + tail) == TransformName(b)
  {
    FromBytesUntilNulMeaning(b);
    var k := |FromBytesUntilNul(b).value|;
    var bt := b + tail;
    assert bt[..k] == b[..k];
    assert bt[k] == 0;
    TransformNameMeaning(b);
    TransformNameMeaning(bt);
  }

  /** Lowercase ASCII text followed by a NUL (and anything after it) is
      returned unchanged. */
  lemma TransformNameOfLowercase(s: seq<u8>, tail: seq<u8>)
    requires forall i :: 0 <= i < |s| ==> 0 < s[i] < 0x80 && !IsAsciiUpper(s[i])
    ensures TransformName(s + [0] + tail) == s
  {
    var b := s + [0] + tail;
    assert b[..|s|] == s;
    assert b[|s|] == 0;
    AsciiIsValid(s);
    AsciiLowercaseOfLower(s);
    TransformNameMeaning(b);
  }

  /** Normalising an already normalised name (re-terminated by a NUL)
      changes nothing. */
  lemma TransformNameIdempotent(b: seq<u8>)
    ensures TransformName(TransformName(b) + [0]) == TransformName(b)
  {
    TransformNameMeaning(b);
    var r := TransformName(b);
    var b2 := r + [0];
    TransformNameMeaning(b2);
    assert b2[..|r|] == r;
    assert b2[|r|] == 0;
    AsciiLowercaseOfLower(r);
  }

  /** The lenient and the strict decoders agree: a success of the strict
      one is what the lenient one returns, and any failure becomes "". */
  lemma TransformNameAgreesWithToStringLowercase(b: seq<u8>)
    ensures ToStringLowercase(b).Ok? ==> TransformName(b) == ToStringLowercase(b).value
    ensures ToStringLowercase(b).Err? ==> TransformName(b) == []
  {
    TransformNameMeaning(b);
    ToStringLowercaseMeaning(b);
    if !NulFree(b) {
      FromBytesUntilNulMeaning(b);
      var k := |FromBytesUntilNul(b).value|;
      assert b[k] == 0 && NulFree(b[..k]);
    }
  }

  // ---------------------------------------------------------------------
  // Masked comparison
  // ---------------------------------------------------------------------

  /** The number of bytes `c` takes in UTF-8. */
  function Utf8Width(c: char): (n: nat)
    ensures 1 <= n <= 4
    ensures n == 1 <==> c as int < 0x80
  {
    if c as int < 0x80 then 1
    else if c as int < 0x800 then 2
    else if c as int < 0x10000 then 3
    else 4
  }

  /** `mask.len()`: the length of the mask in UTF-8 bytes, not in chars. */
  function MaskByteLen(mask: string): (n: nat)
    ensures |mask| <= n <= 4 * |mask|
  {
    if mask == [] then 0 else Utf8Width(mask[0]) + MaskByteLen(mask[1..])
  }

  /** The byte length equals the char count exactly when the mask is all
      ASCII. */
  lemma {:induction false} MaskByteLenAscii(mask: string)
    ensures (forall i :: 0 <= i < |mask| ==> mask[i] as int < 0x80) <==> MaskByteLen(mask) == |mask|
  {
    if mask != [] {
      MaskByteLenAscii(mask[1..]);
      assert forall i :: 1 <= i < |mask| ==> mask[i] == mask[1..][i - 1];
    }
  }

  /** The `all` over `mask.chars().enumerate()`, from char index `i` on. */
  function ExactPositionsAgree(data: seq<u8>, sign: seq<u8>, mask: string, i: nat): bool
    requires i <= |mask| <= |data| && |mask| <= |sign|
    decreases |mask| - i
  {
    i == |mask| || ((mask[i] != 'x' || data[i] == sign[i]) && ExactPositionsAgree(data, sign, mask, i + 1))
  }

  /** The `all` holds exactly when every `'x'` position from `i` on agrees. */
  lemma {:induction false} ExactPositionsAgreeMeaning(data: seq<u8>, sign: seq<u8>, mask: string, i: nat)
    requires i <= |mask| <= |data| && |mask| <= |sign|
    decreases |mask| - i
    ensures ExactPositionsAgree(data, sign, mask, i) <==>
      forall j :: i <= j < |mask| && mask[j] == 'x' ==> data[j] == sign[j]
  {
    if i < |mask| {
      ExactPositionsAgreeMeaning(data, sign, mask, i + 1);
    }
  }

  /** `data_compare`: too-short inputs never match; otherwise every `'x'`
      position must agree and every other character is a wildcard. */
  function DataCompare(data: seq<u8>, sign: seq<u8>, mask: string): bool {
    if |data| < MaskByteLen(mask) || |sign| < MaskByteLen(mask) then false
    else
      ExactPositionsAgree(data, sign, mask, 0)
  }

  /** Both inputs must be at least `mask.len()` bytes long, and then the
      comparison holds exactly when the data agrees with the signature at
      every `'x'` of the mask. */
  lemma DataCompareMeaning(data: seq<u8>, sign: seq<u8>, mask: string)
    ensures DataCompare(data, sign, mask) <==>
      && MaskByteLen(mask) <= |data|
      && MaskByteLen(mask) <= |sign|
      && forall j :: 0 <= j < |mask| && mask[j] == 'x' ==> data[j] == sign[j]
  {
    if MaskByteLen(mask) <= |data| && MaskByteLen(mask) <= |sign| {
      ExactPositionsAgreeMeaning(data, sign, mask, 0);
    }
  }

  /** A mask without any `'x'` (in particular the empty mask) matches every
      long enough input. */
  lemma WildcardMaskMatches(data: seq<u8>, sign: seq<u8>, mask: string)
    requires forall j :: 0 <= j < |mask| ==> mask[j] != 'x'
    requires MaskByteLen(mask) <= |data| && MaskByteLen(mask) <= |sign|
    ensures DataCompare(data, sign, mask)
  {
    DataCompareMeaning(data, sign, mask);
  }

  /** Making one exact position disagree turns a match into a mismatch. */
  lemma ExactMismatchFails(data: seq<u8>, sign: seq<u8>, mask: string, j: nat, v: u8)
    requires j < |mask| && mask[j] == 'x' && j < |data| && j < |sign| && v != sign[j]
    ensures !DataCompare(data[j := v], sign, mask)
  {
    DataCompareMeaning(data[j := v], sign, mask);
  }

  // ---------------------------------------------------------------------
  // Region-by-region signature scan
  // ---------------------------------------------------------------------

  /** The part of `MEMORY_BASIC_INFORMATION` the scan reads:
      `BaseAddress`, `RegionSize` and whether `State == MEM_FREE`. */
  datatype RegionInfo = RegionInfo(baseAddress: u64, regionSize: u64, free: bool)

  /** `MEMORY_BASIC_INFORMATION::default()`: everything zero, and a zero
      `State` is not `MEM_FREE`. */
  const DEFAULT_REGION: RegionInfo := RegionInfo(0, 0, false)

  /** `VirtualQueryEx` at an address: `None` when the call fails, in which
      case the source keeps the previous contents of `mbi`. */
  type RegionQuery = u64 -> Option<RegionInfo>

  /** The target's readable bytes. */
  type ByteMemory = map<u64, u8>

  /** Every region the query reports is non-empty. */
  predicate QueryAdvances(query: RegionQuery) {
    forall a: u64 :: query(a).Some? ==> query(a).value.regionSize > 0
  }

  /** What the loop needs to finish: regions are never empty and the very
      first query succeeds (otherwise the default `mbi`, of size 0, would
      make `offset` stand still). */
  predicate ScanTerminates(query: RegionQuery, base: u64, size: u64) {
    QueryAdvances(query) && (size > 0 ==> query(base).Some?)
  }

  /** `mbi` after querying `address`: the new answer, or the stale one. */
  function Located(query: RegionQuery, address: u64, prev: RegionInfo): RegionInfo {
    match query(address)
    case Some(r) => r
    case None => prev
  }

  /** One iteration of the outer loop: the cursor `offset`, the address
      `base + offset` that is queried and read, and the `mbi` then in force. */
  datatype Step = Step(offset: nat, address: u64, info: RegionInfo)

  /** The iterations the loop performs from cursor `offset` with `mbi == prev`. */
  function TraceFrom(query: RegionQuery, base: u64, size: u64, offset: nat, prev: RegionInfo): seq<Step>
    requires QueryAdvances(query)
    requires offset < size ==> prev.regionSize > 0 || query(WrappingAdd(base, offset)).Some?
    decreases size - offset
  {
    if offset >= size then []
    else
      var address := WrappingAdd(base, offset);
      var info := Located(query, address, prev);
      [Step(offset, address, info)] + TraceFrom(query, base, size, offset + info.regionSize, info)
  }

  /** All iterations of `find_signature`'s loop. */
  function Trace(query: RegionQuery, base: u64, size: u64): seq<Step>
    requires ScanTerminates(query, base, size)
  {
    TraceFrom(query, base, size, 0, DEFAULT_REGION)
  }

  /** Every iteration queries and reads `base + offset`, wrapping, at a
      cursor below `size`, under an `mbi` of non-zero size; the first one
      starts at the given cursor with the answer to its own query (or the
      stale `mbi`), and there is none exactly when the cursor is at or past
      `size`. */
  lemma {:induction false} TraceFromSteps(query: RegionQuery, base: u64, size: u64, offset: nat, prev: RegionInfo)
    requires QueryAdvances(query)
    requires offset < size ==> prev.regionSize > 0 || query(WrappingAdd(base, offset)).Some?
    decreases size - offset
    ensures var t := TraceFrom(query, base, size, offset, prev);
      && (t == [] <==> offset >= size)
      && (t != [] ==> t[0].offset == offset && t[0].info == Located(query, t[0].address, prev))
      && forall k :: 0 <= k < |t| ==>
           && offset <= t[k].offset < size
           && t[k].address == WrappingAdd(base, t[k].offset)
           && t[k].info.regionSize > 0
  {
    if offset < size {
      var info := Located(query, WrappingAdd(base, offset), prev);
      var rest := TraceFrom(query, base, size, offset + info.regionSize, info);
      TraceFromSteps(query, base, size, offset + info.regionSize, info);
      var t := TraceFrom(query, base, size, offset, prev);
      assert forall k :: 0 < k < |t| ==> t[k] == rest[k - 1];
    }
  }

  /** Each iteration after the first advances the cursor by the full
      `RegionSize` of the previous one and sees the answer to its own query,
      or the previous `mbi` when that query fails; the last one carries the
      cursor to `size` or beyond. */
  lemma {:induction false} TraceFromLinks(query: RegionQuery, base: u64, size: u64, offset: nat, prev: RegionInfo)
    requires QueryAdvances(query)
    requires offset < size ==> prev.regionSize > 0 || query(WrappingAdd(base, offset)).Some?
    decreases size - offset
    ensures var t := TraceFrom(query, base, size, offset, prev);
      && (forall k :: 0 < k < |t| ==>
            && t[k].offset == t[k - 1].offset + t[k - 1].info.regionSize
            && t[k].info == Located(query, t[k].address, t[k - 1].info))
      && (t != [] ==> t[|t| - 1].offset + t[|t| - 1].info.regionSize >= size)
  {
    if offset < size {
      var info := Located(query, WrappingAdd(base, offset), prev);
      var next := offset + info.regionSize;
      var rest := TraceFrom(query, base, size, next, info);
      TraceFromLinks(query, base, size, next, info);
      TraceFromSteps(query, base, size, next, info);
      var t := TraceFrom(query, base, size, offset, prev);
      assert t == [Step(offset, WrappingAdd(base, offset), info)] + rest;
      forall k | 0 < k < |t|
        ensures t[k].offset == t[k - 1].offset + t[k - 1].info.regionSize
        ensures t[k].info == Located(query, t[k].address, t[k - 1].info)
      {
        assert t[k] == rest[k - 1];
        if k > 1 {
          assert t[k - 1] == rest[k - 2];
        }
      }
    }
  }

  /** The `k`-th byte address of a read that starts at `address`. */
  function AddressAt(address: u64, k: nat): u64 {
    (address + k) % TWO_64
  }

  /** `ReadProcessMemory` of `len` bytes at `address` succeeds (reads are
      all-or-nothing in this model). */
  predicate Readable(mem: ByteMemory, address: u64, len: nat) {
    forall k :: 0 <= k < len ==> AddressAt(address, k) in mem
  }

  /** The contents of `vec![0u8; len]` after `ReadProcessMemory` into it:
      the target's bytes, or still all zeros when the read failed. */
  function RegionBuffer(mem: ByteMemory, address: u64, len: nat): (buf: seq<u8>)
    ensures |buf| == len
  {
    if Readable(mem, address, len) then seq(len, k requires 0 <= k < len => mem[AddressAt(address, k)])
    else seq(len, _ => 0)
  }

  /** Byte `k` of the buffer is the target's byte at `address + k` when the
      read succeeds, and 0 otherwise. */
  lemma RegionBufferMeaning(mem: ByteMemory, address: u64, len: nat)
    ensures Readable(mem, address, len) ==>
      forall k :: 0 <= k < len ==> RegionBuffer(mem, address, len)[k] == mem[AddressAt(address, k)]
    ensures !Readable(mem, address, len) ==>
      forall k :: 0 <= k < len ==> RegionBuffer(mem, address, len)[k] == 0
  {
  }

  /** The first window position from `j` on at which `data_compare` holds. */
  function FirstMatchFrom(buf: seq<u8>, sign: seq<u8>, mask: string, j: nat): Option<nat>
    requires j <= |buf|
    decreases |buf| - j
  {
    if j == |buf| then None
    else if DataCompare(buf[j..], sign, mask) then Some(j)
    else FirstMatchFrom(buf, sign, mask, j + 1)
  }

  /** The result is the smallest window position from `j` on at which
      `data_compare` holds, and `None` when there is none. */
  lemma {:induction false} FirstMatchFromMeaning(buf: seq<u8>, sign: seq<u8>, mask: string, j: nat)
    requires j <= |buf|
    decreases |buf| - j
    ensures var r := FirstMatchFrom(buf, sign, mask, j);
      && (r.Some? ==> j <= r.value < |buf| && DataCompare(buf[r.value..], sign, mask))
      && (r.Some? ==> forall i :: j <= i < r.value ==> !DataCompare(buf[i..], sign, mask))
      && (r.None? ==> forall i :: j <= i < |buf| ==> !DataCompare(buf[i..], sign, mask))
  {
    if j < |buf| && !DataCompare(buf[j..], sign, mask) {
      FirstMatchFromMeaning(buf, sign, mask, j + 1);
    }
  }

  /** The index the inner `for i in 0..region_size` loop returns at, if any. */
  function StepHit(mem: ByteMemory, s: Step, sign: seq<u8>, mask: string): (h: Option<nat>)
    ensures h.Some? ==> h.value < s.info.regionSize
  {
    if s.info.free then None
    else
      var buf := RegionBuffer(mem, s.address, s.info.regionSize);
      FirstMatchFromMeaning(buf, sign, mask, 0);
      FirstMatchFrom(buf, sign, mask, 0)
  }

  /** A `MEM_FREE` region never matches; in a committed region the hit is
      the smallest index at which `data_compare` holds on the region's
      buffer, and its whole mask window lies inside the region. */
  lemma StepHitMeaning(mem: ByteMemory, s: Step, sign: seq<u8>, mask: string)
    ensures s.info.free ==> StepHit(mem, s, sign, mask).None?
    ensures StepHit(mem, s, sign, mask).Some? ==>
      var i := StepHit(mem, s, sign, mask).value;
      var buf := RegionBuffer(mem, s.address, s.info.regionSize);
      && i + MaskByteLen(mask) <= s.info.regionSize
      && DataCompare(buf[i..], sign, mask)
      && forall j :: 0 <= j < i ==> !DataCompare(buf[j..], sign, mask)
    ensures !s.info.free && StepHit(mem, s, sign, mask).None? ==>
      var buf := RegionBuffer(mem, s.address, s.info.regionSize);
      forall j :: 0 <= j < s.info.regionSize ==> !DataCompare(buf[j..], sign, mask)
  {
    if !s.info.free {
      var buf := RegionBuffer(mem, s.address, s.info.regionSize);
      FirstMatchFromMeaning(buf, sign, mask, 0);
      match FirstMatchFrom(buf, sign, mask, 0)
      case None =>
      case Some(i) =>
        DataCompareMeaning(buf[i..], sign, mask);
    }
  }

  /** A match: the iteration it happens in and the in-buffer index. */
  datatype Hit = Hit(step: nat, index: nat)

  /** The first iteration of `t` whose region holds a match. */
  function FirstHit(mem: ByteMemory, t: seq<Step>, sign: seq<u8>, mask: string): Option<Hit> {
    if t == [] then None
    else match StepHit(mem, t[0], sign, mask)
      case Some(i) => Some(Hit(0, i))
      case None =>
        match FirstHit(mem, t[1..], sign, mask)
        case None => None
        case Some(h) => Some(Hit(h.step + 1, h.index))
  }

  /** The hit names an iteration that matches, with no match in any
      iteration before it; there is no hit exactly when no iteration matches. */
  lemma {:induction false} FirstHitMeaning(mem: ByteMemory, t: seq<Step>, sign: seq<u8>, mask: string)
    ensures var h := FirstHit(mem, t, sign, mask);
      && (h.Some? ==>
            && h.value.step < |t|
            && StepHit(mem, t[h.value.step], sign, mask) == Some(h.value.index)
            && forall k :: 0 <= k < h.value.step ==> StepHit(mem, t[k], sign, mask).None?)
      && (h.None? ==> forall k :: 0 <= k < |t| ==> StepHit(mem, t[k], sign, mask).None?)
  {
    if t != [] && StepHit(mem, t[0], sign, mask).None? {
      FirstHitMeaning(mem, t[1..], sign, mask);
      assert forall k :: 0 < k < |t| ==> t[k] == t[1..][k - 1];
    }
  }

  /** What `find_signature` returns for the iterations `t`: the hit's
      `mbi.BaseAddress` plus the in-buffer index, wrapping, or 0. */
  function ScanResult(mem: ByteMemory, t: seq<Step>, sign: seq<u8>, mask: string): u64 {
    match FirstHit(mem, t, sign, mask)
    case None => 0
    case Some(h) =>
      FirstHitMeaning(mem, t, sign, mask);
      WrappingAdd(t[h.step].info.baseAddress, h.index)
  }

  /** The scan's result, stated without `FirstHit`: 0 when no visited
      committed region holds a match; otherwise (and whenever it is not 0)
      the `BaseAddress` of the earliest matching region plus the smallest
      matching index, whose whole mask window lies inside that region. */
  lemma ScanResultMeaning(mem: ByteMemory, t: seq<Step>, sign: seq<u8>, mask: string)
    ensures (forall k :: 0 <= k < |t| ==> StepHit(mem, t[k], sign, mask).None?) ==> ScanResult(mem, t, sign, mask) == 0
    ensures (exists k :: 0 <= k < |t| && StepHit(mem, t[k], sign, mask).Some?) ==>
      exists k :: 0 <= k < |t| && StepHit(mem, t[k], sign, mask).Some?
        && !t[k].info.free
        && (forall k' :: 0 <= k' < k ==> StepHit(mem, t[k'], sign, mask).None?)
        && StepHit(mem, t[k], sign, mask).value + MaskByteLen(mask) <= t[k].info.regionSize
        && ScanResult(mem, t, sign, mask) == WrappingAdd(t[k].info.baseAddress, StepHit(mem, t[k], sign, mask).value)
  {
    FirstHitMeaning(mem, t, sign, mask);
    match FirstHit(mem, t, sign, mask)
    case None =>
    case Some(h) =>
      var k := h.step;
      StepHitMeaning(mem, t[k], sign, mask);
      assert StepHit(mem, t[k], sign, mask).Some?;
  }

  /** Reading `j` bytes past a wrapped address is reading `i + j` bytes past the original one. */
  lemma AddressAtShift(a: u64, i: u64, j: nat)
    ensures AddressAt(WrappingAdd(a, i), j) == AddressAt(a, i + j)
  {
    if a + i >= TWO_64 {
      var x := a + i + j;
      assert WrappingAdd(a, i) + j == x - TWO_64;
      assert (x - TWO_64) % TWO_64 == x % TWO_64;
    }
  }

  /** When the matching region starts at the cursor (the region is aligned
      to the scanned address) and was readable, the returned address holds
      the signature at every exact position of the mask. */
  lemma HitAddressHoldsSignature(mem: ByteMemory, s: Step, sign: seq<u8>, mask: string)
    requires StepHit(mem, s, sign, mask).Some?
    requires s.info.baseAddress == s.address
    requires Readable(mem, s.address, s.info.regionSize)
    ensures var r := WrappingAdd(s.info.baseAddress, StepHit(mem, s, sign, mask).value);
      forall j :: 0 <= j < |mask| && mask[j] == 'x' ==>
        j < |sign| && AddressAt(r, j) in mem && mem[AddressAt(r, j)] == sign[j]
  {
    StepHitMeaning(mem, s, sign, mask);
    var i := StepHit(mem, s, sign, mask).value;
    var buf := RegionBuffer(mem, s.address, s.info.regionSize);
    var r := WrappingAdd(s.info.baseAddress, i);
    RegionBufferMeaning(mem, s.address, s.info.regionSize);
    forall j | 0 <= j < |mask| && mask[j] == 'x'
      ensures j < |sign| && AddressAt(r, j) in mem && mem[AddressAt(r, j)] == sign[j]
    {
      DataCompareMeaning(buf[i..], sign, mask);
      assert j < |mask| <= MaskByteLen(mask);
      assert buf[i..][j] == buf[i + j];
      AddressAtShift(s.address, i, j);
    }
  }

  /** `ReadProcessMemory(handle, address, buffer, buffer.len(), ..)`: fills
      the whole buffer on success and leaves it untouched on failure. */
  method ReadRegionInto(mem: ByteMemory, address: u64, buffer: array<u8>)
    modifies buffer
    ensures Readable(mem, address, buffer.Length) ==> buffer[..] == RegionBuffer(mem, address, buffer.Length)
    ensures !Readable(mem, address, buffer.Length) ==> buffer[..] == old(buffer[..])
  {
    if Readable(mem, address, buffer.Length) {
      RegionBufferMeaning(mem, address, buffer.Length);
      forall k | 0 <= k < buffer.Length {
        buffer[k] := mem[AddressAt(address, k)];
      }
    }
  }

  /** After a run of iterations without a match, the first iteration that
      matches decides the result, whatever follows it. */
  lemma {:induction false} FirstHitAfterMisses(mem: ByteMemory, visited: seq<Step>, s: Step, rest: seq<Step>, sign: seq<u8>, mask: string, i: nat)
    requires FirstHit(mem, visited, sign, mask).None?
    requires StepHit(mem, s, sign, mask) == Some(i)
    ensures FirstHit(mem, visited + [s] + rest, sign, mask) == Some(Hit(|visited|, i))
  {
    if visited == [] {
      assert visited + [s] + rest == [s] + rest;
    } else {
      assert (visited + [s] + rest)[1..] == visited[1..] + [s] + rest;
      FirstHitAfterMisses(mem, visited[1..], s, rest, sign, mask, i);
    }
  }

  /** The inner `for i in 0..region_size` loop: the first index at which
      `data_compare(&buffer[i..], sign, mask)` holds. */
  method FirstWindowMatch(buffer: array<u8>, sign: seq<u8>, mask: string) returns (found: Option<nat>)
    ensures found == FirstMatchFrom(buffer[..], sign, mask, 0)
  {
    var i := 0;
    while i < buffer.Length
      invariant 0 <= i <= buffer.Length
      invariant FirstMatchFrom(buffer[..], sign, mask, i) == FirstMatchFrom(buffer[..], sign, mask, 0)
    {
      assert buffer[i..] == buffer[..][i..];
      if DataCompare(buffer[i..], sign, mask) {
        return Some(i);
      }
      i := i + 1;
    }
    return None;
  }

  /** One committed region: `vec![0u8; region_size]`, the read into it at
      the queried address, and the search for the first matching window. */
  method ScanRegion(mem: ByteMemory, address: u64, regionSize: u64, sign: seq<u8>, mask: string)
    returns (found: Option<nat>)
    ensures found == FirstMatchFrom(RegionBuffer(mem, address, regionSize), sign, mask, 0)
  {
    var buffer := new u8[regionSize](_ => 0);
    ReadRegionInto(mem, address, buffer);
    assert buffer[..] == RegionBuffer(mem, address, regionSize);
    found := FirstWindowMatch(buffer, sign, mask);
  }

  /** The scan result of one iteration followed by others: a matching
      iteration decides it, an iteration without a match passes it on. */
  lemma ScanResultCons(mem: ByteMemory, s: Step, rest: seq<Step>, sign: seq<u8>, mask: string)
    ensures ScanResult(mem, [s] + rest, sign, mask) ==
      match StepHit(mem, s, sign, mask)
      case Some(i) => WrappingAdd(s.info.baseAddress, i)
      case None => ScanResult(mem, rest, sign, mask)
  {
    var t := [s] + rest;
    assert t[0] == s && t[1..] == rest;
    if StepHit(mem, s, sign, mask).None? {
      FirstHitMeaning(mem, rest, sign, mask);
      match FirstHit(mem, rest, sign, mask)
      case None =>
      case Some(h) =>
        assert t[h.step + 1] == rest[h.step];
    }
  }

  /** One iteration of the loop from cursor `offset`, which finds `info`
      in force and `hit` in its region: a hit makes the result of the
      remaining iterations that region's `BaseAddress` plus the index;
      otherwise that result is the one of the iterations from the cursor
      advanced by `RegionSize`. */
  lemma ScanAdvances(query: RegionQuery, mem: ByteMemory, base: u64, size: u64, sign: seq<u8>, mask: string,
                     offset: nat, prev: RegionInfo, info: RegionInfo, hit: Option<nat>)
    requires QueryAdvances(query)
    requires offset < size && (prev.regionSize > 0 || query(WrappingAdd(base, offset)).Some?)
    requires info == Located(query, WrappingAdd(base, offset), prev)
    requires hit == StepHit(mem, Step(offset, WrappingAdd(base, offset), info), sign, mask)
    ensures hit.Some? ==>
      ScanResult(mem, TraceFrom(query, base, size, offset, prev), sign, mask) == WrappingAdd(info.baseAddress, hit.value)
    ensures hit.None? ==>
      ScanResult(mem, TraceFrom(query, base, size, offset, prev), sign, mask) ==
      ScanResult(mem, TraceFrom(query, base, size, offset + info.regionSize, info), sign, mask)
  {
    var address := WrappingAdd(base, offset);
    TraceFromUnfold(query, base, size, offset, prev);
    ScanResultCons(mem, Step(offset, address, info), TraceFrom(query, base, size, offset + info.regionSize, info), sign, mask);
  }

  /** The first iteration from a cursor below `size`, and the ones after it. */
  lemma TraceFromUnfold(query: RegionQuery, base: u64, size: u64, offset: nat, prev: RegionInfo)
    requires QueryAdvances(query)
    requires offset < size && (prev.regionSize > 0 || query(WrappingAdd(base, offset)).Some?)
    ensures var address := WrappingAdd(base, offset);
      var info := Located(query, address, prev);
      TraceFrom(query, base, size, offset, prev) ==
        [Step(offset, address, info)] + TraceFrom(query, base, size, offset + info.regionSize, info)
  {
  }

  /** The body of the outer loop for one cursor: `VirtualQueryEx` at the
      address (keeping the stale `mbi` when it fails), and the scan of the
      region unless it is `MEM_FREE`. */
  method VisitRegion(query: RegionQuery, mem: ByteMemory, ghost offset: nat, address: u64, prev: RegionInfo,
                     sign: seq<u8>, mask: string)
    returns (info: RegionInfo, found: Option<nat>)
    ensures info == Located(query, address, prev)
    ensures found == StepHit(mem, Step(offset, address, info), sign, mask)
  {
    info := Located(query, address, prev);
    found := None;
    if !info.free {
      found := ScanRegion(mem, address, info.regionSize, sign, mask);
    }
  }

  /** `find_signature`: scan `size` bytes from `base`, region by region,
      and return the absolute address of the first match, or 0. */
  method FindSignature(query: RegionQuery, mem: ByteMemory, base: u64, size: u64, sign: seq<u8>, mask: string)
    returns (r: u64)
    requires ScanTerminates(query, base, size)
    ensures r == ScanResult(mem, Trace(query, base, size), sign, mask)
  {
    var mbi := DEFAULT_REGION;
    var offset: nat := 0;
    ghost var result := ScanResult(mem, Trace(query, base, size), sign, mask);
    while offset < size
      invariant offset < size ==> mbi.regionSize > 0 || query(WrappingAdd(base, offset)).Some?
      invariant ScanResult(mem, TraceFrom(query, base, size, offset, mbi), sign, mask) == result
      decreases size - offset
    {
      var address := WrappingAdd(base, offset);
      ghost var prev := mbi;
      var found;
      mbi, found := VisitRegion(query, mem, offset, address, mbi, sign, mask);
      ScanAdvances(query, mem, base, size, sign, mask, offset, prev, mbi, found);
      if found.Some? {
        r := WrappingAdd(mbi.baseAddress, found.value);
        return;
      }
      offset := offset + mbi.regionSize;
    }
    r := 0;
  }

  // ---------------------------------------------------------------------
  // Module enumeration
  // ---------------------------------------------------------------------

  /** The length of `[HMODULE::default(); 1024]`. */
  const MODULE_SLOTS: nat := 1024

  /** `size_of::<HMODULE>()` on a 64-bit target. */
  const HMODULE_SIZE: nat := 8

  /** What the module calls yield for one slot of the handle array: the
      256-byte `GetModuleBaseNameA` buffer and `GetModuleInformation`'s
      `lpBaseOfDll` and `SizeOfImage`. */
  datatype ModuleSlot = ModuleSlot(nameBuffer: seq<u8>, baseOfDll: u64, sizeOfImage: u32)

  /** `EnumProcessModules`' outputs: the `cb_needed` byte count and the
      handle array, one entry per slot. */
  datatype ModuleEnumeration = ModuleEnumeration(cbNeeded: u32, slots: seq<ModuleSlot>)

  /** `mod_list.iter().take(cb_needed as usize / size_of::<HMODULE>())`. */
  function ModuleCount(e: ModuleEnumeration): (n: nat)
    ensures n <= |e.slots|
  {
    Min(e.cbNeeded / HMODULE_SIZE, |e.slots|)
  }

  /** As many slots are visited as `cb_needed` reports handles, capped by
      the size of the handle array (1024 for the array `process_modules`
      passes). */
  lemma ModuleCountMeaning(e: ModuleEnumeration)
    ensures e.cbNeeded / HMODULE_SIZE <= |e.slots| ==> ModuleCount(e) == e.cbNeeded / HMODULE_SIZE
    ensures e.cbNeeded / HMODULE_SIZE > |e.slots| ==> ModuleCount(e) == |e.slots|
    ensures |e.slots| == MODULE_SLOTS ==> ModuleCount(e) == Min(e.cbNeeded / HMODULE_SIZE, MODULE_SLOTS)
  {
  }

  /** The record pushed for one slot. */
  function ModuleRecord(slot: ModuleSlot): ModuleData {
    ModuleData(TransformName(slot.nameBuffer), slot.baseOfDll, slot.sizeOfImage)
  }

  /** The records for `slots`, in slot order. */
  function ModuleRecords(slots: seq<ModuleSlot>): seq<ModuleData> {
    if slots == [] then [] else ModuleRecords(slots[..|slots| - 1]) + [ModuleRecord(slots[|slots| - 1])]
  }

  lemma {:induction false} ModuleRecordsLength(slots: seq<ModuleSlot>)
    ensures |ModuleRecords(slots)| == |slots|
  {
    if slots != [] {
      ModuleRecordsLength(slots[..|slots| - 1]);
    }
  }

  lemma {:induction false} ModuleRecordsAt(slots: seq<ModuleSlot>, i: nat)
    requires i < |slots|
    ensures |ModuleRecords(slots)| == |slots| && ModuleRecords(slots)[i] == ModuleRecord(slots[i])
  {
    var init := slots[..|slots| - 1];
    ModuleRecordsLength(init);
    if i < |init| {
      ModuleRecordsAt(init, i);
      assert slots[i] == init[i];
    }
  }

  /** One record per slot, each built from its own slot. */
  lemma ModuleRecordsMeaning(slots: seq<ModuleSlot>)
    ensures |ModuleRecords(slots)| == |slots|
    ensures forall i :: 0 <= i < |slots| ==> ModuleRecords(slots)[i] == ModuleRecord(slots[i])
  {
    ModuleRecordsLength(slots);
    forall i | 0 <= i < |slots|
      ensures ModuleRecords(slots)[i] == ModuleRecord(slots[i])
    {
      ModuleRecordsAt(slots, i);
    }
  }

  lemma ModuleRecordsSnoc(slots: seq<ModuleSlot>, i: nat)
    requires i < |slots|
    ensures ModuleRecords(slots[..i + 1]) == ModuleRecords(slots[..i]) + [ModuleRecord(slots[i])]
  {
    assert slots[..i + 1][..i] == slots[..i];
  }

  /** Everything one `process_modules` call appends. */
  function EnumeratedModules(e: ModuleEnumeration): seq<ModuleData> {
    ModuleRecords(e.slots[..ModuleCount(e)])
  }

  /** `process_modules` appends `min(cb_needed / 8, 1024)` records for the
      1024-slot handle array, in slot order; each record's name is
      `transform_name` of that slot's name buffer. */
  lemma EnumeratedModulesMeaning(e: ModuleEnumeration)
    ensures |EnumeratedModules(e)| == ModuleCount(e)
    ensures |e.slots| == MODULE_SLOTS ==> |EnumeratedModules(e)| == Min(e.cbNeeded / HMODULE_SIZE, MODULE_SLOTS)
    ensures forall i :: 0 <= i < ModuleCount(e) ==>
      var m := EnumeratedModules(e)[i];
      && m.moduleName == TransformName(e.slots[i].nameBuffer)
      && m.moduleAddr == e.slots[i].baseOfDll
      && m.moduleSize == e.slots[i].sizeOfImage
  {
    ModuleRecordsMeaning(e.slots[..ModuleCount(e)]);
  }

  /** `process_modules`: append one record per enumerated module to the
      process's module list, in slot order, leaving everything else as it was. */
  method ProcessModules(e: ModuleEnumeration, processData: ProcessData)
    modifies processData
    ensures processData.moduleList == old(processData.moduleList) + EnumeratedModules(e)
    ensures processData.handle == old(processData.handle) && processData.id == old(processData.id)
  {
    var count := ModuleCount(e);
    for i := 0 to count
      invariant processData.moduleList == old(processData.moduleList) + ModuleRecords(e.slots[..i])
      invariant processData.handle == old(processData.handle) && processData.id == old(processData.id)
    {
      ModuleRecordsSnoc(e.slots, i);
      processData.moduleList := processData.moduleList + [ModuleRecord(e.slots[i])];
    }
  }
}

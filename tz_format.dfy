/**
 * The TZif layout (RFC 8536): the 44-byte header of section 3.1, the data
 * block of section 3.2, and the pure decoders that `TZInfo.read_header` and
 * `TZInfo.read_data_block` perform, written over byte strings.
 */
module TzFormat {
  import opened BigEndian

  datatype Option<T> = None | Some(value: T)

  /**
   * Why a read or a lookup fails. In the Python code every one of these is
   * either an `AssertionError` or a `struct.error`; they are told apart here.
   */
  datatype Error =
    | StructError           // struct.unpack given a byte string of the wrong length
    | Truncated             // the whole buffer is no longer than one header
    | BadMagic              // the first four bytes are not "TZif"
    | UnsupportedVersion    // the version byte is not an accepted one
    | InconsistentCounts    // isutcnt or isstdcnt is neither 0 nor typecnt
    | InvalidTransitionIndex
    | InvalidTypeIndex
    | InvalidColumn

  datatype Result<T> = Ok(value: T) | Err(error: Error)

  datatype Outcome = Pass | Fail(error: Error)

  const HEADER_LEN: nat := 44
  const MAGIC: seq<Byte> := [0x54, 0x5A, 0x69, 0x66]  // "TZif"
  const LEGACY: Byte := 0x00
  const VERSION_2: Byte := 0x32  // '2'
  const VERSION_3: Byte := 0x33  // '3'
  const PADDING: seq<Byte> := [0, 0, 0, 0, 0, 0, 0, 0, 0, 0, 0, 0, 0, 0, 0]
  const U32_LIMIT: nat := 0x1_0000_0000

  /** The version byte and the six counts of a header, in the order the file stores them. */
  datatype Header = Header(
    version: Byte,
    isutcnt: nat,
    isstdcnt: nat,
    leapcnt: nat,
    timecnt: nat,
    typecnt: nat,
    charcnt: nat)

  /** A local time type record: UT offset in seconds, DST flag byte, designation index. */
  datatype LocalTimeType = LocalTimeType(utoff: int, isdst: Byte, desigidx: Byte)

  /** A leap-second record: occurrence time and total correction after it. */
  datatype LeapRecord = LeapRecord(occurrence: int, correction: int)

  // ---------------------------------------------------------------------------
  // Header (section 3.1 of RFC 8536)
  // ---------------------------------------------------------------------------

  /** The accepted versions: a legacy NUL byte, '2' or '3'. */
  predicate VersionAccepted(v: Byte)
  {
    v == LEGACY || v == VERSION_2 || v == VERSION_3
  }

  /**
   * The version test as written: the one-byte string `ver` is compared with the
   * integer 0, which never holds in Python 3, so only '2' and '3' get through.
   */
  predicate VersionAcceptedAsWritten(v: Byte)
  {
    v == VERSION_2 || v == VERSION_3
  }

  /** The version test `DecodeHeader` applies: as written, or as intended. */
  predicate VersionTest(v: Byte, asWritten: bool)
  {
    if asWritten then VersionAcceptedAsWritten(v) else VersionAccepted(v)
  }

  predicate IndicatorCountsConsistent(isutcnt: nat, isstdcnt: nat, typecnt: nat)
  {
    (isutcnt == 0 || isutcnt == typecnt) && (isstdcnt == 0 || isstdcnt == typecnt)
  }

  /** What a successful header read guarantees. */
  predicate WellFormedHeader(h: Header)
  {
    && VersionAccepted(h.version)
    && IndicatorCountsConsistent(h.isutcnt, h.isstdcnt, h.typecnt)
    && h.isutcnt < U32_LIMIT && h.isstdcnt < U32_LIMIT && h.leapcnt < U32_LIMIT
    && h.timecnt < U32_LIMIT && h.typecnt < U32_LIMIT && h.charcnt < U32_LIMIT
  }

  /** The four magic bytes "TZif" open `mem`. */
  predicate HasMagic(mem: seq<Byte>)
  {
    |mem| >= 4 && mem[0] == 0x54 && mem[1] == 0x5A && mem[2] == 0x69 && mem[3] == 0x66
  }

  lemma HasMagicIsPrefix(mem: seq<Byte>)
    requires |mem| >= 4
    ensures HasMagic(mem) <==> mem[..4] == MAGIC
  {
    assert mem[..4] == [mem[0], mem[1], mem[2], mem[3]];
  }

  /** The `k`-th big-endian unsigned 32-bit count, after magic, version and padding. */
  function CountAt(mem: seq<Byte>, k: nat): (r: nat)
    requires |mem| == HEADER_LEN && k < 6
    ensures r < U32_LIMIT
  {
    var i := 20 + 4 * k;
    mem[i] as nat * 0x100_0000 + mem[i + 1] as nat * 0x1_0000 + mem[i + 2] as nat * 0x100 + mem[i + 3] as nat
  }

  lemma CountAtIsUnsigned(mem: seq<Byte>, k: nat)
    requires |mem| == HEADER_LEN && k < 6
    ensures CountAt(mem, k) == Unsigned(mem[20 + 4 * k..24 + 4 * k])
  {
    Unsigned4(mem[20 + 4 * k..24 + 4 * k]);
  }

  /**
   * `read_header` on a 44-byte string: unpack with "!4sc15xIIIIII", then the
   * four assertions in order. `asWritten` selects the version test as written.
   */
  function DecodeHeader(mem: seq<Byte>, asWritten: bool): (r: Result<Header>)
    ensures |mem| != HEADER_LEN ==> r == Err(StructError)
    ensures |mem| == HEADER_LEN && !HasMagic(mem) ==> r == Err(BadMagic)
    ensures |mem| == HEADER_LEN && HasMagic(mem) && !VersionTest(mem[4], asWritten) ==> r == Err(UnsupportedVersion)
    ensures (|mem| == HEADER_LEN && HasMagic(mem) && VersionTest(mem[4], asWritten) &&
             !IndicatorCountsConsistent(CountAt(mem, 0), CountAt(mem, 1), CountAt(mem, 4)))
         ==> r == Err(InconsistentCounts)
    ensures r.Ok? <==> (|mem| == HEADER_LEN && HasMagic(mem) && VersionTest(mem[4], asWritten) &&
                        IndicatorCountsConsistent(CountAt(mem, 0), CountAt(mem, 1), CountAt(mem, 4)))
    ensures r.Ok? ==> WellFormedHeader(r.value)
    ensures r.Ok? ==> |mem| == HEADER_LEN && HasMagic(mem) && r.value.version == mem[4]
    ensures r.Ok? && asWritten ==> r.value.version != LEGACY
  {
    if |mem| != HEADER_LEN then Err(StructError)
    else if !HasMagic(mem) then Err(BadMagic)
    else if !VersionTest(mem[4], asWritten) then Err(UnsupportedVersion)
    else
      var h := Header(mem[4], CountAt(mem, 0), CountAt(mem, 1), CountAt(mem, 2),
                      CountAt(mem, 3), CountAt(mem, 4), CountAt(mem, 5));
      if !IndicatorCountsConsistent(h.isutcnt, h.isstdcnt, h.typecnt) then Err(InconsistentCounts)
      else Ok(h)
  }

  lemma HeaderBytesFromCounts(mem: seq<Byte>)
    requires |mem| == HEADER_LEN && HasMagic(mem)
    ensures EncodeHeader(Header(mem[4], CountAt(mem, 0), CountAt(mem, 1), CountAt(mem, 2),
                                CountAt(mem, 3), CountAt(mem, 4), CountAt(mem, 5)))
            == mem[..5] + PADDING + mem[20..]
  {
    forall k | 0 <= k < 6
      ensures EncodeUnsigned(CountAt(mem, k), 4) == mem[20 + 4 * k..24 + 4 * k]
    {
      CountAtIsUnsigned(mem, k);
      EncodeOfUnsigned(mem[20 + 4 * k..24 + 4 * k]);
    }
    HasMagicIsPrefix(mem);
    assert mem[..5] == MAGIC + [mem[4]];
    CountSlots(mem);
    Regroup(mem[..5] + PADDING, mem[20..24], mem[24..28], mem[28..32], mem[32..36], mem[36..40], mem[40..44]);
  }

  /** The counts area of a header is its six 4-byte slots in order. */
  lemma CountSlots(mem: seq<Byte>)
    requires |mem| == HEADER_LEN
    ensures mem[20..] == mem[20..24] + mem[24..28] + mem[28..32] + mem[32..36] + mem[36..40] + mem[40..44]
  {
  }

  lemma Regroup(x: seq<Byte>, a0: seq<Byte>, a1: seq<Byte>, a2: seq<Byte>, a3: seq<Byte>, a4: seq<Byte>, a5: seq<Byte>)
    ensures x + a0 + a1 + a2 + a3 + a4 + a5 == x + (a0 + a1 + a2 + a3 + a4 + a5)
  {
  }

  /** `struct` skips the 15 padding bytes ("15x"): whatever they hold, the header reads the same. */
  lemma PaddingIgnored(mem: seq<Byte>, pad: seq<Byte>, asWritten: bool)
    requires |mem| == HEADER_LEN && |pad| == 15
    ensures DecodeHeader(mem[..5] + pad + mem[20..], asWritten) == DecodeHeader(mem, asWritten)
  {
    var m := mem[..5] + pad + mem[20..];
    assert m[..4] == mem[..4] && m[4] == mem[4];
    assert m[20..] == mem[20..];
    forall k | 0 <= k < 6
      ensures CountAt(m, k) == CountAt(mem, k)
    {
      assert m[20 + 4 * k..24 + 4 * k] == mem[20 + 4 * k..24 + 4 * k];
    }
  }

  /** The header reader the rest of the model uses: legacy files are accepted. */
  function ParseHeader(mem: seq<Byte>): (r: Result<Header>)
    ensures r.Ok? ==> |mem| == HEADER_LEN && WellFormedHeader(r.value)
  {
    DecodeHeader(mem, false)
  }

  /**
   * The converse round trip: writing back a header that was read reproduces
   * the bytes read, except that the padding becomes zeros.
   */
  lemma ParsedHeaderReencodes(mem: seq<Byte>)
    requires ParseHeader(mem).Ok?
    ensures EncodeHeader(ParseHeader(mem).value) == mem[..5] + PADDING + mem[20..]
  {
    HeaderBytesFromCounts(mem);
  }

  /** The 44 bytes a writer emits for `h` (zero padding). */
  function EncodeHeader(h: Header): (r: seq<Byte>)
    ensures |r| == HEADER_LEN
  {
    MAGIC + [h.version] + PADDING
      + EncodeUnsigned(h.isutcnt, 4) + EncodeUnsigned(h.isstdcnt, 4) + EncodeUnsigned(h.leapcnt, 4)
      + EncodeUnsigned(h.timecnt, 4) + EncodeUnsigned(h.typecnt, 4) + EncodeUnsigned(h.charcnt, 4)
  }

  /** Every well-formed header survives a write and a read. */
  lemma HeaderRoundTrip(h: Header)
    requires WellFormedHeader(h)
    ensures ParseHeader(EncodeHeader(h)) == Ok(h)
  {
    var mem := EncodeHeader(h);
    HeaderPieces(MAGIC + [h.version] + PADDING,
      EncodeUnsigned(h.isutcnt, 4), EncodeUnsigned(h.isstdcnt, 4), EncodeUnsigned(h.leapcnt, 4),
      EncodeUnsigned(h.timecnt, 4), EncodeUnsigned(h.typecnt, 4), EncodeUnsigned(h.charcnt, 4));
    CountRoundTrip(mem, 0, h.isutcnt);
    CountRoundTrip(mem, 1, h.isstdcnt);
    CountRoundTrip(mem, 2, h.leapcnt);
    CountRoundTrip(mem, 3, h.timecnt);
    CountRoundTrip(mem, 4, h.typecnt);
    CountRoundTrip(mem, 5, h.charcnt);
  }

  lemma HeaderPieces(pre: seq<Byte>, e0: seq<Byte>, e1: seq<Byte>, e2: seq<Byte>, e3: seq<Byte>, e4: seq<Byte>, e5: seq<Byte>)
    requires |pre| == 20 && |e0| == 4 && |e1| == 4 && |e2| == 4 && |e3| == 4 && |e4| == 4 && |e5| == 4
    ensures var m := pre + e0 + e1 + e2 + e3 + e4 + e5;
      && m[..4] == pre[..4] && m[4] == pre[4]
      && m[20..24] == e0 && m[24..28] == e1 && m[28..32] == e2
      && m[32..36] == e3 && m[36..40] == e4 && m[40..44] == e5
  {
  }

  /** A count written at slot `k` of a header is read back from that slot. */
  lemma CountRoundTrip(mem: seq<Byte>, k: nat, x: nat)
    requires |mem| == HEADER_LEN && k < 6 && x < U32_LIMIT
    requires mem[20 + 4 * k..24 + 4 * k] == EncodeUnsigned(x, 4)
    ensures CountAt(mem, k) == x
  {
    assert Pow256(4) == U32_LIMIT;
    UnsignedRoundTrip(x, 4);
    CountAtIsUnsigned(mem, k);
  }

  /**
   * The version test as written turns away every well-formed legacy header,
   * which the intended test accepts.
   */
  lemma LegacyHeaderRejectedAsWritten(h: Header)
    requires WellFormedHeader(h) && h.version == LEGACY
    ensures DecodeHeader(EncodeHeader(h), true) == Err(UnsupportedVersion)
    ensures ParseHeader(EncodeHeader(h)) == Ok(h)
  {
    HeaderRoundTrip(h);
    assert EncodeHeader(h)[..4] == MAGIC;
    assert EncodeHeader(h)[4] == LEGACY;
  }

  // ---------------------------------------------------------------------------
  // Data block (section 3.2 of RFC 8536)
  // ---------------------------------------------------------------------------

  // Where each field of a data block starts, for time values of `w` bytes.
  function TypesStart(h: Header, w: nat): nat { h.timecnt * w }
  function RecordsStart(h: Header, w: nat): nat { TypesStart(h, w) + h.timecnt }
  function CharsStart(h: Header, w: nat): nat { RecordsStart(h, w) + 6 * h.typecnt }
  function LeapsStart(h: Header, w: nat): nat { CharsStart(h, w) + h.charcnt }
  function StdStart(h: Header, w: nat): nat { LeapsStart(h, w) + h.leapcnt * (w + 4) }
  function UtStart(h: Header, w: nat): nat { StdStart(h, w) + h.isstdcnt }

  /** The length formula of section 3.2 of RFC 8536; it ends where the last field ends. */
  function DataBlockLen(h: Header, w: nat): (r: nat)
    ensures r == UtStart(h, w) + h.isutcnt
  {
    h.timecnt * w + h.timecnt + h.typecnt * 6 + h.charcnt + h.leapcnt * (w + 4)
      + h.isstdcnt + h.isutcnt
  }

  /** `n` big-endian signed time values of `w` bytes each (`struct` "!nl" or "!nq"). */
  function DecodeTimes(region: seq<Byte>, n: nat, w: nat): (r: seq<int>)
    requires w >= 1 && |region| == n * w
    ensures |r| == n
  {
    seq(n, i requires 0 <= i < n => MulStep(i, n, w); Signed(region[i * w..i * w + w]))
  }

  /** One 6-byte local time type record ("!lBB"). */
  function DecodeLocalTimeType(r6: seq<Byte>): (r: LocalTimeType)
    requires |r6| == 6
    ensures InSignedRange(r.utoff, 4)
    ensures r.isdst == r6[4] && r.desigidx == r6[5]
  {
    LocalTimeType(Signed(r6[..4]), r6[4], r6[5])
  }

  /** One leap-second record of `w + 4` bytes ("!ll" or "!ql"). */
  function DecodeLeapRecord(rec: seq<Byte>, w: nat): (r: LeapRecord)
    requires w >= 1 && |rec| == w + 4
    ensures InSignedRange(r.occurrence, w) && InSignedRange(r.correction, 4)
  {
    LeapRecord(Signed(rec[..w]), Signed(rec[w..]))
  }

  function DecodeRecords(region: seq<Byte>, n: nat): (r: seq<LocalTimeType>)
    requires |region| == 6 * n
    ensures |r| == n
  {
    seq(n, i requires 0 <= i < n => DecodeLocalTimeType(region[6 * i..6 * i + 6]))
  }

  function DecodeLeaps(region: seq<Byte>, n: nat, w: nat): (r: seq<LeapRecord>)
    requires w >= 1 && |region| == n * (w + 4)
    ensures |r| == n
  {
    var k := w + 4;
    seq(n, i requires 0 <= i < n => MulStep(i, n, k); DecodeLeapRecord(region[i * k..i * k + k], w))
  }

  /** Decoding one more leap-second record extends the decoded prefix by that record. */
  lemma DecodeLeapsSnoc(region: seq<Byte>, i: nat, w: nat)
    requires w >= 1 && i * (w + 4) + (w + 4) <= |region|
    ensures i * (w + 4) + (w + 4) == (i + 1) * (w + 4)
    ensures DecodeLeaps(region[..(i + 1) * (w + 4)], i + 1, w)
            == DecodeLeaps(region[..i * (w + 4)], i, w) + [DecodeLeapRecord(region[i * (w + 4)..i * (w + 4) + (w + 4)], w)]
  {
    var k := w + 4;
    assert i * k + k == (i + 1) * k;
    var longer, shorter := DecodeLeaps(region[..(i + 1) * k], i + 1, w), DecodeLeaps(region[..i * k], i, w);
    forall j | 0 <= j < i
      ensures longer[j] == shorter[j]
    {
      MulStep(j, i, k);
      assert region[..(i + 1) * k][j * k..j * k + k] == region[..i * k][j * k..j * k + k];
    }
    assert region[..(i + 1) * k][i * k..i * k + k] == region[i * k..i * k + k];
  }

  // `struct.unpack` raises unless the string has exactly the format's size; the
  // record loops raise at the first record that is short.

  function UnpackTimes(region: seq<Byte>, n: nat, w: nat): Option<seq<int>>
    requires w >= 1
  {
    if |region| == n * w then Some(DecodeTimes(region, n, w)) else None
  }

  function UnpackBytes(region: seq<Byte>, n: nat): Option<seq<Byte>>
  {
    if |region| == n then Some(region) else None
  }

  function UnpackRecords(region: seq<Byte>, n: nat): Option<seq<LocalTimeType>>
  {
    if |region| < 6 * n then None else Some(DecodeRecords(region[..6 * n], n))
  }

  function UnpackLeaps(region: seq<Byte>, n: nat, w: nat): Option<seq<LeapRecord>>
    requires w >= 1
  {
    if |region| < n * (w + 4) then None else Some(DecodeLeaps(region[..n * (w + 4)], n, w))
  }

  /** The decoded fields of a data block; `None` for a field not (yet) read. */
  datatype Block = Block(
    times: Option<seq<int>>,
    types: Option<seq<Byte>>,
    records: Option<seq<LocalTimeType>>,
    designations: Option<seq<Byte>>,
    leaps: Option<seq<LeapRecord>>,
    stdWall: Option<seq<Byte>>,
    utLocal: Option<seq<Byte>>)

  const NO_FIELDS: Block := Block(None, None, None, None, None, None, None)

  /** The fields of `later` that were read, over the fields of `earlier`. */
  function Overlay(earlier: Block, later: Block): (r: Block)
    ensures later == NO_FIELDS ==> r == earlier
    ensures earlier == NO_FIELDS ==> r == later
  {
    Block(
      if later.times.Some? then later.times else earlier.times,
      if later.types.Some? then later.types else earlier.types,
      if later.records.Some? then later.records else earlier.records,
      if later.designations.Some? then later.designations else earlier.designations,
      if later.leaps.Some? then later.leaps else earlier.leaps,
      if later.stdWall.Some? then later.stdWall else earlier.stdWall,
      if later.utLocal.Some? then later.utLocal else earlier.utLocal)
  }

  /**
   * `read_data_block` on `mem` with time values of `w` bytes: the fields read
   * before it stops, and whether it stops with an error. Fields are read in
   * the order of the file, a cursor advancing over each; a field whose count
   * is 0 is not read. Designations are a plain slice, so they never fail.
   */
  function DecodeBlock(h: Header, w: nat, mem: seq<Byte>): (r: (Block, Outcome))
    requires w >= 1
    ensures r.1 == Pass <==> BlockFits(h, w, |mem|)
    ensures r.1 != Pass ==> r.1 == Fail(StructError)
    ensures r.1 == Pass ==> FieldsMatchCounts(h, r.0)
    ensures r.1 == Pass && |mem| >= DataBlockLen(h, w) ==> Designations(r.0, h.charcnt)
  {
    var times := if h.timecnt > 0 then UnpackTimes(Slice(mem, 0, TypesStart(h, w)), h.timecnt, w) else None;
    if h.timecnt > 0 && times.None? then (NO_FIELDS, Fail(StructError))
    else
      var b1 := NO_FIELDS.(times := times);
      var types := if h.timecnt > 0 then UnpackBytes(Slice(mem, TypesStart(h, w), RecordsStart(h, w)), h.timecnt) else None;
      if h.timecnt > 0 && types.None? then (b1, Fail(StructError))
      else DecodeFromRecords(h, w, mem, b1.(types := types))
  }

  /**
   * The stages of `DecodeBlock` from the local time type records on, with `b`
   * read so far; the fields from the records on are replaced.
   */
  function DecodeFromRecords(h: Header, w: nat, mem: seq<Byte>, b: Block): (r: (Block, Outcome))
    requires w >= 1
    ensures r.1 == Pass <==> RecordsFit(h, w, |mem|) && LeapsFit(h, w, |mem|) && IndicatorsFit(h, w, |mem|)
    ensures r.1 != Pass ==> r.1 == Fail(StructError)
    ensures r.1 == Pass ==> r.0.times == b.times && r.0.types == b.types
    ensures r.1 == Pass ==> && FieldMatches(r.0.records, h.typecnt)
                            && (r.0.designations.Some? <==> h.charcnt > 0)
                            && (r.0.designations.Some? ==> |r.0.designations.value| <= h.charcnt)
                            && (|mem| >= LeapsStart(h, w) ==> Designations(r.0, h.charcnt))
                            && FieldMatches(r.0.leaps, h.leapcnt)
                            && FieldMatches(r.0.stdWall, h.isstdcnt) && FieldMatches(r.0.utLocal, h.isutcnt)
  {
    var records := if h.typecnt > 0 then UnpackRecords(Slice(mem, RecordsStart(h, w), CharsStart(h, w)), h.typecnt) else None;
    if h.typecnt > 0 && records.None? then (b, Fail(StructError))
    else
      var b3 := b.(records := records);
      DecodeFromLeaps(h, w, mem, b3.(designations := if h.charcnt > 0 then Some(Slice(mem, CharsStart(h, w), LeapsStart(h, w))) else None))
  }

  /** The stages of `DecodeBlock` from the leap-second records on. */
  function DecodeFromLeaps(h: Header, w: nat, mem: seq<Byte>, b: Block): (r: (Block, Outcome))
    requires w >= 1
    ensures r.1 == Pass <==> LeapsFit(h, w, |mem|) && IndicatorsFit(h, w, |mem|)
    ensures r.1 != Pass ==> r.1 == Fail(StructError)
    ensures r.1 == Pass ==> r.0 == b.(leaps := r.0.leaps, stdWall := r.0.stdWall, utLocal := r.0.utLocal)
    ensures r.1 == Pass ==> FieldMatches(r.0.leaps, h.leapcnt)
                            && FieldMatches(r.0.stdWall, h.isstdcnt) && FieldMatches(r.0.utLocal, h.isutcnt)
  {
    var leaps := if h.leapcnt > 0 then UnpackLeaps(Slice(mem, LeapsStart(h, w), StdStart(h, w)), h.leapcnt, w) else None;
    if h.leapcnt > 0 && leaps.None? then (b, Fail(StructError))
    else DecodeIndicators(h, w, mem, b.(leaps := leaps))
  }

  /** The last stages of `DecodeBlock`: the standard/wall and UT/local indicators. */
  function DecodeIndicators(h: Header, w: nat, mem: seq<Byte>, b: Block): (r: (Block, Outcome))
    ensures r.1 == Pass <==> IndicatorsFit(h, w, |mem|)
    ensures r.1 != Pass ==> r.1 == Fail(StructError)
    ensures r.1 == Pass ==> r.0 == b.(stdWall := r.0.stdWall, utLocal := r.0.utLocal)
    ensures r.1 == Pass ==> FieldMatches(r.0.stdWall, h.isstdcnt) && FieldMatches(r.0.utLocal, h.isutcnt)
  {
    var stdWall := if h.isstdcnt > 0 then UnpackBytes(Slice(mem, StdStart(h, w), UtStart(h, w)), h.isstdcnt) else None;
    if h.isstdcnt > 0 && stdWall.None? then (b, Fail(StructError))
    else
      var b6 := b.(stdWall := stdWall);
      var utLocal := if h.isutcnt > 0 then UnpackBytes(Slice(mem, UtStart(h, w), DataBlockLen(h, w)), h.isutcnt) else None;
      if h.isutcnt > 0 && utLocal.None? then (b6, Fail(StructError))
      else (b6.(utLocal := utLocal), Pass)
  }

  /**
   * The lengths a data block must reach for `read_data_block` to finish: every
   * field with a non-zero count must be present in full, except the
   * designations, which are sliced without a length check.
   */
  predicate BlockFits(h: Header, w: nat, len: nat)
  {
    TransitionsFit(h, w, len) && RecordsFit(h, w, len) && LeapsFit(h, w, len) && IndicatorsFit(h, w, len)
  }

  predicate TransitionsFit(h: Header, w: nat, len: nat) { h.timecnt == 0 || len >= RecordsStart(h, w) }
  predicate RecordsFit(h: Header, w: nat, len: nat) { h.typecnt == 0 || len >= CharsStart(h, w) }
  predicate LeapsFit(h: Header, w: nat, len: nat) { h.leapcnt == 0 || len >= StdStart(h, w) }

  predicate IndicatorsFit(h: Header, w: nat, len: nat)
  {
    (h.isstdcnt == 0 || len >= UtStart(h, w)) && (h.isutcnt == 0 || len >= DataBlockLen(h, w))
  }

  /** A field is read exactly when its count is non-zero, and then has that many entries. */
  predicate FieldMatches<T>(f: Option<seq<T>>, count: nat)
  {
    (f.Some? <==> count > 0) && (f.Some? ==> |f.value| == count)
  }

  /** Every field matches its count; the designations may fall short of theirs. */
  predicate FieldsMatchCounts(h: Header, b: Block)
  {
    && FieldMatches(b.times, h.timecnt) && FieldMatches(b.types, h.timecnt)
    && FieldMatches(b.records, h.typecnt)
    && (b.designations.Some? <==> h.charcnt > 0)
    && (b.designations.Some? ==> |b.designations.value| <= h.charcnt)
    && FieldMatches(b.leaps, h.leapcnt)
    && FieldMatches(b.stdWall, h.isstdcnt) && FieldMatches(b.utLocal, h.isutcnt)
  }

  predicate Designations(b: Block, charcnt: nat)
  {
    b.designations.Some? ==> |b.designations.value| == charcnt
  }

  /**
   * The decoder consumes exactly `DataBlockLen` bytes: given at least that
   * many, it reads the same fields as from the first `DataBlockLen` bytes alone.
   */
  lemma DecodeBlockConsumesLength(h: Header, w: nat, mem: seq<Byte>)
    requires w >= 1 && |mem| >= DataBlockLen(h, w)
    ensures DecodeBlock(h, w, mem) == DecodeBlock(h, w, mem[..DataBlockLen(h, w)])
    ensures DecodeBlock(h, w, mem).1 == Pass
  {
    var m := mem[..DataBlockLen(h, w)];
    assert Slice(mem, 0, TypesStart(h, w)) == Slice(m, 0, TypesStart(h, w));
    assert Slice(mem, TypesStart(h, w), RecordsStart(h, w)) == Slice(m, TypesStart(h, w), RecordsStart(h, w));
    forall b: Block
      ensures DecodeFromRecords(h, w, mem, b) == DecodeFromRecords(h, w, m, b)
    {
      RecordsConsumeLength(h, w, mem, b);
    }
  }

  lemma RecordsConsumeLength(h: Header, w: nat, mem: seq<Byte>, b: Block)
    requires w >= 1 && |mem| >= DataBlockLen(h, w)
    ensures DecodeFromRecords(h, w, mem, b) == DecodeFromRecords(h, w, mem[..DataBlockLen(h, w)], b)
  {
    var m := mem[..DataBlockLen(h, w)];
    assert Slice(mem, RecordsStart(h, w), CharsStart(h, w)) == Slice(m, RecordsStart(h, w), CharsStart(h, w));
    assert Slice(mem, CharsStart(h, w), LeapsStart(h, w)) == Slice(m, CharsStart(h, w), LeapsStart(h, w));
    forall b': Block
      ensures DecodeFromLeaps(h, w, mem, b') == DecodeFromLeaps(h, w, m, b')
    {
      LeapsConsumeLength(h, w, mem, b');
    }
  }

  lemma LeapsConsumeLength(h: Header, w: nat, mem: seq<Byte>, b: Block)
    requires w >= 1 && |mem| >= DataBlockLen(h, w)
    ensures DecodeFromLeaps(h, w, mem, b) == DecodeFromLeaps(h, w, mem[..DataBlockLen(h, w)], b)
  {
    var m := mem[..DataBlockLen(h, w)];
    assert Slice(mem, LeapsStart(h, w), StdStart(h, w)) == Slice(m, LeapsStart(h, w), StdStart(h, w));
    forall b': Block
      ensures DecodeIndicators(h, w, mem, b') == DecodeIndicators(h, w, m, b')
    {
      assert Slice(mem, StdStart(h, w), UtStart(h, w)) == Slice(m, StdStart(h, w), UtStart(h, w));
      assert Slice(mem, UtStart(h, w), DataBlockLen(h, w)) == Slice(m, UtStart(h, w), DataBlockLen(h, w));
    }
  }

  /**
   * A file cut short inside its designations, with no leap-second records or
   * indicators after them, is read without error, with fewer designation
   * bytes than `charcnt` says.
   */
  lemma TruncatedDesignationsAccepted(h: Header, w: nat, mem: seq<Byte>)
    requires w >= 1 && h.leapcnt == 0 && h.isstdcnt == 0 && h.isutcnt == 0
    requires CharsStart(h, w) <= |mem| < DataBlockLen(h, w)
    ensures DecodeBlock(h, w, mem).1 == Pass
    ensures DecodeBlock(h, w, mem).0.designations == Some(mem[CharsStart(h, w)..])
    ensures |mem[CharsStart(h, w)..]| < h.charcnt
  {
  }

  // ---------------------------------------------------------------------------
  // Writing a data block, the inverse of reading one
  // ---------------------------------------------------------------------------

  function EncodeLocalTimeType(t: LocalTimeType): (r: seq<Byte>)
    ensures |r| == 6
  {
    EncodeSigned(t.utoff, 4) + [t.isdst, t.desigidx]
  }

  function EncodeLeapRecord(l: LeapRecord, w: nat): (r: seq<Byte>)
    ensures |r| == w + 4
  {
    EncodeSigned(l.occurrence, w) + EncodeSigned(l.correction, 4)
  }

  function EncodeTimes(ts: seq<int>, w: nat): seq<Byte>
  {
    Concat(seq(|ts|, i requires 0 <= i < |ts| => EncodeSigned(ts[i], w)))
  }

  function EncodeRecords(rs: seq<LocalTimeType>): seq<Byte>
  {
    Concat(seq(|rs|, i requires 0 <= i < |rs| => EncodeLocalTimeType(rs[i])))
  }

  function EncodeLeaps(ls: seq<LeapRecord>, w: nat): seq<Byte>
  {
    Concat(seq(|ls|, i requires 0 <= i < |ls| => EncodeLeapRecord(ls[i], w)))
  }

  lemma {:induction false} TimesRoundTrip(ts: seq<int>, w: nat)
    requires w >= 1 && forall i | 0 <= i < |ts| :: InSignedRange(ts[i], w)
    ensures |EncodeTimes(ts, w)| == |ts| * w
    ensures DecodeTimes(EncodeTimes(ts, w), |ts|, w) == ts
  {
    var chunks := seq(|ts|, i requires 0 <= i < |ts| => EncodeSigned(ts[i], w));
    ConcatChunks(chunks, w);
    var d := DecodeTimes(EncodeTimes(ts, w), |ts|, w);
    forall i | 0 <= i < |ts| ensures d[i] == ts[i] {
      SignedRoundTrip(ts[i], w);
    }
  }

  lemma {:induction false} RecordsRoundTrip(rs: seq<LocalTimeType>)
    requires forall i | 0 <= i < |rs| :: InSignedRange(rs[i].utoff, 4)
    ensures |EncodeRecords(rs)| == 6 * |rs|
    ensures DecodeRecords(EncodeRecords(rs), |rs|) == rs
  {
    var chunks := seq(|rs|, i requires 0 <= i < |rs| => EncodeLocalTimeType(rs[i]));
    ConcatChunks(chunks, 6);
    var e := EncodeRecords(rs);
    forall i | 0 <= i < |rs| ensures DecodeRecords(e, |rs|)[i] == rs[i] {
      assert e[i * 6..i * 6 + 6] == chunks[i];
      RecordAt(rs, i, e);
    }
  }

  /** Record `i` of a region whose bytes `[6i, 6i+6)` encode it decodes back to it. */
  lemma RecordAt(rs: seq<LocalTimeType>, i: nat, e: seq<Byte>)
    requires i < |rs| && InSignedRange(rs[i].utoff, 4)
    requires |e| == 6 * |rs| && e[6 * i..6 * i + 6] == EncodeLocalTimeType(rs[i])
    ensures DecodeRecords(e, |rs|)[i] == rs[i]
  {
    LocalTimeTypeRoundTrip(rs[i]);
  }

  /** One "!lBB" record survives a write and a read. */
  lemma LocalTimeTypeRoundTrip(t: LocalTimeType)
    requires InSignedRange(t.utoff, 4)
    ensures DecodeLocalTimeType(EncodeLocalTimeType(t)) == t
  {
    SignedRoundTrip(t.utoff, 4);
    assert EncodeLocalTimeType(t)[..4] == EncodeSigned(t.utoff, 4);
  }

  lemma LeapRecordRoundTrip(l: LeapRecord, w: nat)
    requires InSignedRange(l.occurrence, w) && InSignedRange(l.correction, 4)
    ensures DecodeLeapRecord(EncodeLeapRecord(l, w), w) == l
  {
    var e := EncodeLeapRecord(l, w);
    assert e[..w] == EncodeSigned(l.occurrence, w);
    assert e[w..] == EncodeSigned(l.correction, 4);
    SignedRoundTrip(l.occurrence, w);
    SignedRoundTrip(l.correction, 4);
  }

  lemma {:induction false} LeapsRoundTrip(ls: seq<LeapRecord>, w: nat)
    requires w >= 1
    requires forall i | 0 <= i < |ls| :: InSignedRange(ls[i].occurrence, w) && InSignedRange(ls[i].correction, 4)
    ensures |EncodeLeaps(ls, w)| == |ls| * (w + 4)
    ensures DecodeLeaps(EncodeLeaps(ls, w), |ls|, w) == ls
  {
    var k := w + 4;
    var chunks := seq(|ls|, i requires 0 <= i < |ls| => EncodeLeapRecord(ls[i], w));
    ConcatChunks(chunks, k);
    var e := EncodeLeaps(ls, w);
    assert |e| == |ls| * k;
    var d := DecodeLeaps(e, |ls|, w);
    forall i | 0 <= i < |ls| ensures d[i] == ls[i] {
      LeapAt(e, chunks, ls, w, i);
    }
  }

  lemma LeapAt(e: seq<Byte>, chunks: seq<seq<Byte>>, ls: seq<LeapRecord>, w: nat, i: nat)
    requires w >= 1 && |chunks| == |ls| && i < |ls| && |e| == |ls| * (w + 4)
    requires chunks[i] == EncodeLeapRecord(ls[i], w)
    requires InSignedRange(ls[i].occurrence, w) && InSignedRange(ls[i].correction, 4)
    requires i * (w + 4) + (w + 4) <= |e| && e[i * (w + 4)..i * (w + 4) + (w + 4)] == chunks[i]
    ensures DecodeLeaps(e, |ls|, w)[i] == ls[i]
  {
    LeapRecordRoundTrip(ls[i], w);
  }

  /** The fields of a data block as a writer holds them. */
  datatype Content = Content(
    times: seq<int>,
    types: seq<Byte>,
    records: seq<LocalTimeType>,
    designations: seq<Byte>,
    leaps: seq<LeapRecord>,
    stdWall: seq<Byte>,
    utLocal: seq<Byte>)

  /** Content that fits the format with time values of `w` bytes. */
  predicate Encodable(c: Content, w: nat)
  {
    && w >= 1
    && |c.types| == |c.times|
    && (forall i | 0 <= i < |c.times| :: InSignedRange(c.times[i], w))
    && (forall i | 0 <= i < |c.records| :: InSignedRange(c.records[i].utoff, 4))
    && (forall i | 0 <= i < |c.leaps| :: InSignedRange(c.leaps[i].occurrence, w) && InSignedRange(c.leaps[i].correction, 4))
  }

  /** The header counts that describe `c`. */
  function HeaderFor(c: Content, version: Byte): Header
  {
    Header(version, |c.utLocal|, |c.stdWall|, |c.leaps|, |c.times|, |c.records|, |c.designations|)
  }

  /** The data block a writer emits, fields in the order of section 3.2 of RFC 8536. */
  function EncodeBlock(c: Content, w: nat): seq<Byte>
  {
    EncodeTimes(c.times, w) + c.types + EncodeRecords(c.records) + c.designations
      + EncodeLeaps(c.leaps, w) + c.stdWall + c.utLocal
  }

  function Present<T>(s: seq<T>): Option<seq<T>>
  {
    if |s| > 0 then Some(s) else None
  }

  /** What reading `c` back yields: each non-empty field, the empty ones left unread. */
  function BlockOf(c: Content): Block
  {
    Block(Present(c.times), Present(c.types), Present(c.records), Present(c.designations),
          Present(c.leaps), Present(c.stdWall), Present(c.utLocal))
  }

  /** Where each field of a written data block lies, by the layout of `DecodeBlock`. */
  lemma BlockLayout(c: Content, w: nat, version: Byte)
    requires Encodable(c, w)
    ensures var h, mem := HeaderFor(c, version), EncodeBlock(c, w);
      && |mem| == DataBlockLen(h, w)
      && Slice(mem, 0, TypesStart(h, w)) == EncodeTimes(c.times, w)
      && Slice(mem, TypesStart(h, w), RecordsStart(h, w)) == c.types
      && Slice(mem, RecordsStart(h, w), CharsStart(h, w)) == EncodeRecords(c.records)
      && Slice(mem, CharsStart(h, w), LeapsStart(h, w)) == c.designations
      && Slice(mem, LeapsStart(h, w), StdStart(h, w)) == EncodeLeaps(c.leaps, w)
      && Slice(mem, StdStart(h, w), UtStart(h, w)) == c.stdWall
      && Slice(mem, UtStart(h, w), DataBlockLen(h, w)) == c.utLocal
  {
    var h := HeaderFor(c, version);
    TimesRoundTrip(c.times, w);
    RecordsRoundTrip(c.records);
    LeapsRoundTrip(c.leaps, w);
    var a, b, r, d := EncodeTimes(c.times, w), c.types, EncodeRecords(c.records), c.designations;
    var l, sw, ul := EncodeLeaps(c.leaps, w), c.stdWall, c.utLocal;
    var mem := EncodeBlock(c, w);
    SevenPieces(a, b, r, d, l, sw, ul);
    assert |a| == TypesStart(h, w) && |a + b| == RecordsStart(h, w);
    assert |a + b + r| == CharsStart(h, w) && |a + b + r + d| == LeapsStart(h, w);
    assert |a + b + r + d + l| == StdStart(h, w) && |a + b + r + d + l + sw| == UtStart(h, w);
  }

  /**
   * Reading a written data block gives back every field, in order, and the
   * block is exactly `DataBlockLen` bytes long.
   */
  lemma BlockRoundTrip(c: Content, w: nat, version: Byte)
    requires Encodable(c, w)
    ensures |EncodeBlock(c, w)| == DataBlockLen(HeaderFor(c, version), w)
    ensures DecodeBlock(HeaderFor(c, version), w, EncodeBlock(c, w)) == (BlockOf(c), Pass)
  {
    var h, mem := HeaderFor(c, version), EncodeBlock(c, w);
    BlockLayout(c, w, version);
    TimesRoundTrip(c.times, w);
    RecordsRoundTrip(c.records);
    LeapsRoundTrip(c.leaps, w);
    var r, l := EncodeRecords(c.records), EncodeLeaps(c.leaps, w);
    assert r[..6 * |c.records|] == r;
    assert l[..|c.leaps| * (w + 4)] == l;
    var b2 := NO_FIELDS.(times := Present(c.times), types := Present(c.types));
    var b4 := b2.(records := Present(c.records), designations := Present(c.designations));
    var b5 := b4.(leaps := Present(c.leaps));
    assert DecodeIndicators(h, w, mem, b5) == (BlockOf(c), Pass);
    assert DecodeFromLeaps(h, w, mem, b4) == (BlockOf(c), Pass);
    assert DecodeFromRecords(h, w, mem, b2) == (BlockOf(c), Pass);
  }

  lemma SevenPieces(a: seq<Byte>, b: seq<Byte>, r: seq<Byte>, d: seq<Byte>, l: seq<Byte>, sw: seq<Byte>, ul: seq<Byte>)
    ensures var m := a + b + r + d + l + sw + ul;
      && m[..|a|] == a
      && m[|a|..|a + b|] == b
      && m[|a + b|..|a + b + r|] == r
      && m[|a + b + r|..|a + b + r + d|] == d
      && m[|a + b + r + d|..|a + b + r + d + l|] == l
      && m[|a + b + r + d + l|..|a + b + r + d + l + sw|] == sw
      && m[|a + b + r + d + l + sw|..] == ul
  {
  }

  /** The version-2 encoding of a 4-byte time region: every value sign-extended to 8 bytes. */
  function WidenTimes(region: seq<Byte>, n: nat): (r: seq<Byte>)
    requires |region| == n * 4
  {
    Concat(seq(n, i requires 0 <= i < n => MulStep(i, n, 4); SignExtend4(region[i * 4..i * 4 + 4])))
  }

  /**
   * Cross-layout agreement: the 64-bit table built by sign-extending a 32-bit
   * table decodes to the same transition times.
   */
  lemma WidenedTimesAgree(region: seq<Byte>, n: nat)
    requires |region| == n * 4
    ensures |WidenTimes(region, n)| == n * 8
    ensures DecodeTimes(WidenTimes(region, n), n, 8) == DecodeTimes(region, n, 4)
  {
    var chunks := seq(n, i requires 0 <= i < n => MulStep(i, n, 4); SignExtend4(region[i * 4..i * 4 + 4]));
    ConcatChunks(chunks, 8);
    var wide := WidenTimes(region, n);
    assert wide == Concat(chunks);
    forall i | 0 <= i < n
      ensures DecodeTimes(wide, n, 8)[i] == DecodeTimes(region, n, 4)[i]
    {
      WidenedTimeAt(region, n, wide, chunks, i);
    }
  }

  lemma WidenedTimeAt(region: seq<Byte>, n: nat, wide: seq<Byte>, chunks: seq<seq<Byte>>, i: nat)
    requires |region| == n * 4 && |wide| == n * 8 && i < n && |chunks| == n
    requires i * 4 + 4 <= n * 4 && chunks[i] == SignExtend4(region[i * 4..i * 4 + 4])
    requires i * 8 + 8 <= n * 8 && wide[i * 8..i * 8 + 8] == chunks[i]
    ensures DecodeTimes(wide, n, 8)[i] == DecodeTimes(region, n, 4)[i]
  {
    WidenedTimeAgrees(region[i * 4..i * 4 + 4]);
  }
}

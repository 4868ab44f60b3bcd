/**
 * The `TZInfo` class: a reader that fills its fields from a TZif buffer
 * step by step (`read_header`, `read_data_block`, `read_footer`, `read`) and
 * answers lookups from them (`get_transition_index`, `get_local_time_type`
 * and the field accessors).
 */
module TzInfo {
  import opened BigEndian
  import opened TzFormat
  import opened TzSearch

  /** The fields `read` updates, gathered into one value. */
  datatype State = State(header: Header, block: Block, tzStrings: Option<seq<Byte>>)

  /** The fields of a freshly constructed reader. */
  const INITIAL: State := State(Header(0, 0, 0, 0, 0, 0, 0), NO_FIELDS, None)

  /** Every count that is non-zero has its field read, with that many entries. */
  predicate StateDecoded(s: State)
  {
    && (s.header.timecnt > 0 ==>
          && s.block.times.Some? && |s.block.times.value| == s.header.timecnt
          && s.block.types.Some? && |s.block.types.value| == s.header.timecnt)
    && (s.header.typecnt > 0 ==>
          s.block.records.Some? && |s.block.records.value| == s.header.typecnt)
  }

  /**
   * A table whose count is non-zero has been read, with that many entries. A
   * count of 0 says nothing: the field read under an earlier header stays.
   */
  predicate Covers<T>(f: Option<seq<T>>, count: nat)
  {
    count > 0 ==> f.Some? && |f.value| == count
  }

  /**
   * What a successful `read` leaves: every table of a non-zero count read at
   * its length, except the designations, which may fall short.
   */
  predicate TablesRead(s: State)
  {
    && StateDecoded(s)
    && (s.header.charcnt > 0 ==> s.block.designations.Some? && |s.block.designations.value| <= s.header.charcnt)
    && Covers(s.block.leaps, s.header.leapcnt)
    && Covers(s.block.stdWall, s.header.isstdcnt)
    && Covers(s.block.utLocal, s.header.isutcnt)
  }

  /**
   * `read_header`: on success the version and counts are replaced by the ones
   * in `mem` (the version from byte 4, the counts from bytes 20 to 43, so that
   * writing the stored header back gives `mem` with zero padding), and nothing
   * else changes; on failure nothing changes.
   */
  function HeaderStep(s: State, mem: seq<Byte>): (r: (State, Outcome))
    ensures r.1 == Pass ==> WellFormedHeader(r.0.header) && r.0 == s.(header := r.0.header)
    ensures r.1 == Pass ==> |mem| == HEADER_LEN && EncodeHeader(r.0.header) == mem[..5] + PADDING + mem[20..]
    ensures r.1 != Pass ==> r.0 == s
  {
    match ParseHeader(mem)
    case Ok(h) => ParsedHeaderReencodes(mem); (s.(header := h), Pass)
    case Err(e) => (s, Fail(e))
  }

  /**
   * `read_data_block`: time values take 4 bytes under a legacy header and 8
   * otherwise; the fields read before it stops replace the old ones.
   */
  function BlockStep(s: State, mem: seq<Byte>): (r: (State, Outcome))
    ensures r.0.header == s.header && r.0.tzStrings == s.tzStrings
    ensures r.1 == Pass ==> TablesRead(r.0)
  {
    var r := if s.header.version == LEGACY then DecodeBlock(s.header, 4, mem) else DecodeBlock(s.header, 8, mem);
    (s.(block := Overlay(s.block, r.0)), r.1)
  }

  /**
   * `read` on the buffer `buf`: the first header; for a legacy file its 32-bit
   * data block; otherwise the second header just past the (skipped) 32-bit
   * block, the 64-bit block after it, and every remaining byte as the footer.
   * A buffer no longer than a header fails `read`'s length assertion.
   */
  function ReadSpec(s: State, buf: seq<Byte>): (r: (State, Outcome))
    ensures |buf| <= HEADER_LEN ==> r == (s, Fail(Truncated))
    ensures r.1 == Pass ==> WellFormedHeader(r.0.header) && TablesRead(r.0)
  {
    if |buf| <= HEADER_LEN then (s, Fail(Truncated))
    else
      var first := HeaderStep(s, buf[..HEADER_LEN]);
      if first.1 != Pass then first
      else ReadAfterHeader(first.0, buf)
  }

  /** `read` after the first header: `s.header` is that header. */
  function ReadAfterHeader(s: State, buf: seq<Byte>): (r: (State, Outcome))
    requires WellFormedHeader(s.header)
    ensures r.1 == Pass ==> WellFormedHeader(r.0.header) && TablesRead(r.0)
  {
    var end1 := HEADER_LEN + DataBlockLen(s.header, 4);
    if s.header.version == LEGACY then BlockStep(s, Slice(buf, HEADER_LEN, end1))
    else ReadFromSecondHeader(s, buf, end1)
  }

  /** `read` on a version-2+ file from the second header, which starts at `begin`. */
  function ReadFromSecondHeader(s: State, buf: seq<Byte>, begin: nat): (r: (State, Outcome))
    ensures r.1 == Pass ==> WellFormedHeader(r.0.header) && TablesRead(r.0)
  {
    var second := HeaderStep(s, Slice(buf, begin, begin + HEADER_LEN));
    if second.1 != Pass then second
    else ReadExtended(second.0, buf, begin + HEADER_LEN)
  }

  /**
   * `read` after the second header, which ends at `begin`: the 64-bit block and
   * the footer. `get_data_block_len(self.version)` measures the block with 8-byte
   * times, as an accepted version byte is never 1.
   */
  function ReadExtended(s: State, buf: seq<Byte>, begin: nat): (r: (State, Outcome))
    requires WellFormedHeader(s.header)
    ensures r.1 == Pass ==> WellFormedHeader(r.0.header) && TablesRead(r.0)
  {
    var end := begin + DataBlockLen(s.header, 8);
    var third := BlockStep(s, Slice(buf, begin, end));
    if third.1 != Pass then third
    else (third.0.(tzStrings := Some(Drop(buf, end))), Pass)
  }

  /** `ReadExtended` as its two steps: the block over `[begin, end)`, then the footer from `end`. */
  lemma ReadExtendedSteps(s: State, buf: seq<Byte>, begin: nat, end: nat)
    requires WellFormedHeader(s.header) && end == begin + DataBlockLen(s.header, 8)
    ensures var third := BlockStep(s, Slice(buf, begin, end));
      ReadExtended(s, buf, begin) == if third.1 != Pass then third else (third.0.(tzStrings := Some(Drop(buf, end))), Pass)
  {
  }

  /** The record loop of `read_data_block`: one "!lBB" record per 6 bytes. */
  method UnpackLocalTimeTypes(region: seq<Byte>, n: nat) returns (r: Option<seq<LocalTimeType>>)
    ensures r == UnpackRecords(region, n)
  {
    var records: seq<LocalTimeType> := [];
    for i := 0 to n
      invariant 6 * i <= |region|
      invariant |records| == i
      invariant forall j | 0 <= j < i :: records[j] == DecodeLocalTimeType(region[6 * j..6 * j + 6])
    {
      var recordIdx := i * 6;
      var record := Slice(region, recordIdx, recordIdx + 6);
      if |record| != 6 {
        return None;
      }
      records := records + [DecodeLocalTimeType(record)];
    }
    forall j | 0 <= j < n
      ensures records[j] == DecodeRecords(region[..6 * n], n)[j]
    {
      SliceOfPrefix(region, 6 * n, 6 * j, 6 * j + 6);
    }
    assert records == DecodeRecords(region[..6 * n], n);
    return Some(records);
  }

  /** The leap-second loop of `read_data_block`: one record per `w + 4` bytes. */
  method UnpackLeapSeconds(region: seq<Byte>, n: nat, w: nat) returns (r: Option<seq<LeapRecord>>)
    requires w >= 1
    ensures r == UnpackLeaps(region, n, w)
  {
    var k := w + 4;
    var records: seq<LeapRecord> := [];
    for i := 0 to n
      invariant i * k <= |region|
      invariant records == DecodeLeaps(region[..i * k], i, w)
    {
      var recordIdx := i * k;
      var record := Slice(region, recordIdx, recordIdx + k);
      if |record| != k {
        MulStep(i, n, k);
        return None;
      }
      DecodeLeapsSnoc(region, i, w);
      records := records + [DecodeLeapRecord(record, w)];
    }
    return Some(records);
  }

  /**
   * The body of `read_data_block` on values: the cursor `memIdx` walks `mem`
   * and each field whose count is non-zero is unpacked in turn; the first
   * unpack that fails ends the read with the fields read so far.
   */
  method DecodeDataBlock(h: Header, timeSize: nat, mem: seq<Byte>) returns (b: Block, res: Outcome)
    requires timeSize >= 1
    ensures (b, res) == DecodeBlock(h, timeSize, mem)
  {
    var memIdx: nat;
    b, res, memIdx := ReadTransitions(h, timeSize, mem);
    if res != Pass {
      return;
    }
    b, res, memIdx := ReadRecordsAndDesignations(h, timeSize, mem, b, memIdx);
    if res != Pass {
      return;
    }
    b, res, memIdx := ReadLeapSeconds(h, timeSize, mem, b, memIdx);
    if res != Pass {
      return;
    }
    b, res := ReadIndicators(h, timeSize, mem, b, memIdx);
  }

  /** The transition times ("!nl" or "!nq") and the transition types ("nB"). */
  method ReadTransitions(h: Header, timeSize: nat, mem: seq<Byte>) returns (b: Block, res: Outcome, memIdx: nat)
    requires timeSize >= 1
    ensures memIdx == RecordsStart(h, timeSize)
    ensures res != Pass ==> DecodeBlock(h, timeSize, mem) == (b, res)
    ensures res == Pass ==> DecodeBlock(h, timeSize, mem) == DecodeFromRecords(h, timeSize, mem, b)
  {
    b, res, memIdx := NO_FIELDS, Pass, 0;
    if h.timecnt > 0 {
      var times := UnpackTimes(Slice(mem, 0, h.timecnt * timeSize), h.timecnt, timeSize);
      if times.None? {
        return b, Fail(StructError), RecordsStart(h, timeSize);
      }
      b := b.(times := times);
      memIdx := memIdx + h.timecnt * timeSize;
      var types := UnpackBytes(Slice(mem, memIdx, memIdx + h.timecnt), h.timecnt);
      if types.None? {
        return b, Fail(StructError), RecordsStart(h, timeSize);
      }
      b := b.(types := types);
      memIdx := memIdx + h.timecnt;
    }
  }

  /** The local time type records ("!lBB" each) and the designation characters. */
  method ReadRecordsAndDesignations(h: Header, timeSize: nat, mem: seq<Byte>, b0: Block, memIdx0: nat)
    returns (b: Block, res: Outcome, memIdx: nat)
    requires timeSize >= 1 && memIdx0 == RecordsStart(h, timeSize)
    ensures memIdx == LeapsStart(h, timeSize)
    ensures res != Pass ==> DecodeFromRecords(h, timeSize, mem, b0) == (b, res)
    ensures res == Pass ==> DecodeFromRecords(h, timeSize, mem, b0) == DecodeFromLeaps(h, timeSize, mem, b)
  {
    b, res, memIdx := b0, Pass, memIdx0;
    var records := None;
    if h.typecnt > 0 {
      var region := Slice(mem, memIdx, memIdx + h.typecnt * 6);
      memIdx := memIdx + h.typecnt * 6;
      records := UnpackLocalTimeTypes(region, h.typecnt);
      if records.None? {
        return b, Fail(StructError), LeapsStart(h, timeSize);
      }
    }
    b := b.(records := records);
    var designations := None;
    if h.charcnt > 0 {
      designations := Some(Slice(mem, memIdx, memIdx + h.charcnt));
      memIdx := memIdx + h.charcnt;
    }
    b := b.(designations := designations);
  }

  /** The leap-second records ("!ll" or "!ql" each). */
  method ReadLeapSeconds(h: Header, timeSize: nat, mem: seq<Byte>, b0: Block, memIdx0: nat)
    returns (b: Block, res: Outcome, memIdx: nat)
    requires timeSize >= 1 && memIdx0 == LeapsStart(h, timeSize)
    ensures memIdx == StdStart(h, timeSize)
    ensures res != Pass ==> DecodeFromLeaps(h, timeSize, mem, b0) == (b, res)
    ensures res == Pass ==> DecodeFromLeaps(h, timeSize, mem, b0) == DecodeIndicators(h, timeSize, mem, b)
  {
    b, res, memIdx := b0, Pass, memIdx0;
    var leaps := None;
    if h.leapcnt > 0 {
      var region := Slice(mem, memIdx, memIdx + h.leapcnt * (timeSize + 4));
      leaps := UnpackLeapSeconds(region, h.leapcnt, timeSize);
      if leaps.None? {
        return b, Fail(StructError), StdStart(h, timeSize);
      }
      memIdx := memIdx + h.leapcnt * (timeSize + 4);
    }
    b := b.(leaps := leaps);
  }

  /** The standard/wall and UT/local indicators ("nB" each). */
  method ReadIndicators(h: Header, timeSize: nat, mem: seq<Byte>, b0: Block, memIdx0: nat)
    returns (b: Block, res: Outcome)
    requires memIdx0 == StdStart(h, timeSize)
    ensures (b, res) == DecodeIndicators(h, timeSize, mem, b0)
  {
    b := b0;
    var memIdx := memIdx0;
    var stdWall := None;
    if h.isstdcnt > 0 {
      stdWall := UnpackBytes(Slice(mem, memIdx, memIdx + h.isstdcnt), h.isstdcnt);
      if stdWall.None? {
        return b, Fail(StructError);
      }
      memIdx := memIdx + h.isstdcnt;
    }
    b := b.(stdWall := stdWall);
    var utLocal := None;
    if h.isutcnt > 0 {
      utLocal := UnpackBytes(Slice(mem, memIdx, memIdx + h.isutcnt), h.isutcnt);
      if utLocal.None? {
        return b, Fail(StructError);
      }
    }
    b := b.(utLocal := utLocal);
    return b, Pass;
  }

  // The columns of a local time type record, as `get_local_time_type_field` numbers them.
  const FIELD_UTOFF: int := 0
  const FIELD_ISDST: int := 1
  const FIELD_DESIG_IDX: int := 2

  /** Column `column` of the record `t`, as the tuple `struct.unpack` gives. */
  function Column(t: LocalTimeType, column: int): int
    requires FIELD_UTOFF <= column <= FIELD_DESIG_IDX
  {
    if column == FIELD_UTOFF then t.utoff else if column == FIELD_ISDST then t.isdst else t.desigidx
  }

  class TZInfo {
    const tz: string
    var version: Byte
    var isutcnt: nat
    var isstdcnt: nat
    var leapcnt: nat
    var timecnt: nat
    var typecnt: nat
    var charcnt: nat
    var transitionTimes: Option<seq<int>>
    var transitionTypes: Option<seq<Byte>>
    var localTimeTypeRecords: Option<seq<LocalTimeType>>
    var timeZoneDesignations: Option<seq<Byte>>
    var leapSecondsRecords: Option<seq<LeapRecord>>
    var standardWallIndicators: Option<seq<Byte>>
    var utLocalIndicators: Option<seq<Byte>>
    var tzStrings: Option<seq<Byte>>

    function Hdr(): Header
      reads this
    {
      Header(version, isutcnt, isstdcnt, leapcnt, timecnt, typecnt, charcnt)
    }

    function Fields(): Block
      reads this
    {
      Block(transitionTimes, transitionTypes, localTimeTypeRecords, timeZoneDesignations,
            leapSecondsRecords, standardWallIndicators, utLocalIndicators)
    }

    /** The reader's fields as one value. */
    function Snapshot(): State
      reads this
    {
      State(Hdr(), Fields(), tzStrings)
    }

    constructor (tz: string)
      ensures this.tz == tz && Snapshot() == INITIAL
    {
      this.tz := tz;
      version, isutcnt, isstdcnt, leapcnt, timecnt, typecnt, charcnt := 0, 0, 0, 0, 0, 0, 0;
      transitionTimes, transitionTypes, localTimeTypeRecords := None, None, None;
      timeZoneDesignations, leapSecondsRecords := None, None;
      standardWallIndicators, utLocalIndicators, tzStrings := None, None, None;
    }

    method ReadHeader(mem: seq<Byte>) returns (res: Outcome)
      modifies this
      ensures Snapshot() == HeaderStep(old(Snapshot()), mem).0
      ensures res == HeaderStep(old(Snapshot()), mem).1
    {
      var parsed := ParseHeader(mem);
      if parsed.Err? {
        return Fail(parsed.error);
      }
      StoreHeader(parsed.value);
      return Pass;
    }

    /** The assignments of `read_header` once its checks have passed. */
    method StoreHeader(h: Header)
      modifies this
      ensures Snapshot() == old(Snapshot()).(header := h)
    {
      version, isutcnt, isstdcnt, leapcnt := h.version, h.isutcnt, h.isstdcnt, h.leapcnt;
      timecnt, typecnt, charcnt := h.timecnt, h.typecnt, h.charcnt;
    }

    /** `get_data_block_len`: the length of a data block with the current counts. */
    method GetDataBlockLen(dataBlockVer: int) returns (dataBlockLen: nat)
      ensures dataBlockVer == 1 ==> dataBlockLen == DataBlockLen(Hdr(), 4)
      ensures dataBlockVer != 1 ==> dataBlockLen == DataBlockLen(Hdr(), 8)
    {
      var timeSize := if dataBlockVer == 1 then 4 else 8;
      dataBlockLen := timecnt * timeSize;
      dataBlockLen := dataBlockLen + timecnt;
      dataBlockLen := dataBlockLen + typecnt * 6;
      dataBlockLen := dataBlockLen + charcnt;
      dataBlockLen := dataBlockLen + leapcnt * (timeSize + 4);
      dataBlockLen := dataBlockLen + isstdcnt;
      dataBlockLen := dataBlockLen + isutcnt;
    }

    /**
     * `read_data_block`: the fields are decoded in file order by a cursor over
     * `mem`, and each field that was read is stored; on an error the fields
     * read before it stay stored.
     */
    method ReadDataBlock(mem: seq<Byte>) returns (res: Outcome)
      modifies this
      ensures Snapshot() == BlockStep(old(Snapshot()), mem).0
      ensures res == BlockStep(old(Snapshot()), mem).1
    {
      var timeSize: nat := if version == LEGACY then 4 else 8;
      var b;
      b, res := DecodeDataBlock(Hdr(), timeSize, mem);
      StoreFields(Overlay(Fields(), b));
    }

    /** The assignments of `read_data_block`, one per field. */
    method StoreFields(f: Block)
      modifies this
      ensures Snapshot() == old(Snapshot()).(block := f)
    {
      transitionTimes, transitionTypes, localTimeTypeRecords := f.times, f.types, f.records;
      timeZoneDesignations, leapSecondsRecords := f.designations, f.leaps;
      standardWallIndicators, utLocalIndicators := f.stdWall, f.utLocal;
    }

    /** `read_footer`: the bytes after the last data block, kept verbatim. */
    method ReadFooter(buf: seq<Byte>)
      modifies this
      ensures Snapshot() == old(Snapshot()).(tzStrings := Some(buf))
    {
      tzStrings := Some(buf);
    }

    /** `read`, with the file's contents passed in as `buf`. */
    method Read(buf: seq<Byte>) returns (res: Outcome)
      modifies this
      ensures Snapshot() == ReadSpec(old(Snapshot()), buf).0
      ensures res == ReadSpec(old(Snapshot()), buf).1
    {
      if |buf| <= HEADER_LEN {
        return Fail(Truncated);
      }
      res := ReadHeader(buf[..HEADER_LEN]);
      if res != Pass {
        return;
      }
      res := ReadAfterFirstHeader(buf);
    }

    /**
     * The rest of `read` once the first header is stored: a legacy file's
     * 32-bit block, or the second header just past it and what follows.
     */
    method ReadAfterFirstHeader(buf: seq<Byte>) returns (res: Outcome)
      requires WellFormedHeader(Hdr())
      modifies this
      ensures Snapshot() == ReadAfterHeader(old(Snapshot()), buf).0
      ensures res == ReadAfterHeader(old(Snapshot()), buf).1
    {
      ghost var s0 := Snapshot();
      var begin: nat := HEADER_LEN;
      var len := GetDataBlockLen(1);
      var end: nat := begin + len;
      if version == LEGACY {
        assert ReadAfterHeader(s0, buf) == BlockStep(s0, Slice(buf, begin, end));
        res := ReadDataBlock(Slice(buf, begin, end));
      } else {
        assert ReadAfterHeader(s0, buf) == ReadFromSecondHeader(s0, buf, end);
        res := ReadSecondHeader(buf, end);
      }
    }

    /** `read` on a version-2+ file from the second header, which starts at `begin`. */
    method ReadSecondHeader(buf: seq<Byte>, begin: nat) returns (res: Outcome)
      modifies this
      ensures Snapshot() == ReadFromSecondHeader(old(Snapshot()), buf, begin).0
      ensures res == ReadFromSecondHeader(old(Snapshot()), buf, begin).1
    {
      var end := begin + HEADER_LEN;
      res := ReadHeader(Slice(buf, begin, end));
      if res != Pass {
        return;
      }
      res := ReadExtendedBlock(buf, end);
    }

    /** The end of `read` for a version-2+ file: the 64-bit block from `begin`, then the footer. */
    method ReadExtendedBlock(buf: seq<Byte>, begin: nat) returns (res: Outcome)
      requires WellFormedHeader(Hdr())
      modifies this
      ensures Snapshot() == ReadExtended(old(Snapshot()), buf, begin).0
      ensures res == ReadExtended(old(Snapshot()), buf, begin).1
    {
      ghost var s0 := Snapshot();
      var len := GetDataBlockLen(version as int);
      var end := begin + len;
      ReadExtendedSteps(s0, buf, begin, end);
      res := ReadDataBlock(Slice(buf, begin, end));
      if res != Pass {
        return;
      }
      ReadFooter(Drop(buf, end));
    }

    // Lookups. They read the fields `read` filled; each requires what the
    // Python code indexes without checking: the table of a non-zero count is
    // present with that many entries.

    /** `get_transition_index`: -1 without transitions, else the bisection over the whole table. */
    function GetTransitionIndex(timestamp: int): (r: int)
      reads this
      requires timecnt > 0 ==> transitionTimes.Some? && |transitionTimes.value| == timecnt
      ensures timecnt == 0 ==> r == -1
      ensures timecnt > 0 ==> -1 <= r < timecnt
      ensures timecnt > 0 && StrictlyAscending(transitionTimes.value) ==> r == Floor(transitionTimes.value, timestamp)
    {
      if timecnt == 0 then -1
      else
        var times := transitionTimes.value;
        var r := SearchTransitionIndex(times, timestamp, 0, timecnt - 1);
        assert StrictlyAscending(times) ==> r == Floor(times, timestamp) by {
          if StrictlyAscending(times) {
            TransitionIndexIsFloor(times, timestamp);
          }
        }
        r
    }

    /** What the record lookups index: the transition types and the records, at their counts. */
    predicate TypesRead()
      reads this
    {
      Covers(transitionTypes, timecnt) && Covers(localTimeTypeRecords, typecnt)
    }

    /**
     * `get_local_time_type`: nothing without transitions; otherwise the index
     * must name a transition and that transition's type a record.
     */
    function GetLocalTimeType(transIdx: int): (r: Result<Option<LocalTimeType>>)
      reads this
      requires TypesRead()
      ensures r == Ok(None) <==> timecnt == 0
      ensures r == Err(InvalidTransitionIndex) <==> timecnt > 0 && !(0 <= transIdx < timecnt)
      ensures r == Err(InvalidTypeIndex) <==>
        timecnt > 0 && 0 <= transIdx < timecnt && transitionTypes.value[transIdx] >= typecnt
      ensures timecnt > 0 && 0 <= transIdx < timecnt && transitionTypes.value[transIdx] < typecnt ==>
        r == Ok(Some(localTimeTypeRecords.value[transitionTypes.value[transIdx]]))
      ensures r.Ok? && r.value.Some? ==>
        && 0 <= transIdx < timecnt && transitionTypes.value[transIdx] < typecnt
        && r.value.value == localTimeTypeRecords.value[transitionTypes.value[transIdx]]
    {
      if timecnt == 0 then Ok(None)
      else if !(0 <= transIdx <= timecnt - 1) then Err(InvalidTransitionIndex)
      else
        var typeIndex := transitionTypes.value[transIdx];
        if !(0 <= typeIndex <= typecnt - 1) then Err(InvalidTypeIndex)
        else Ok(Some(localTimeTypeRecords.value[typeIndex]))
    }

    /**
     * `get_local_time_type_field`: the column is checked first; a reader
     * without transitions answers 0 for every column.
     */
    function GetLocalTimeTypeField(transIdx: int, column: int): (r: Result<int>)
      reads this
      requires TypesRead()
      ensures !(FIELD_UTOFF <= column <= FIELD_DESIG_IDX) ==> r == Err(InvalidColumn)
      ensures FIELD_UTOFF <= column <= FIELD_DESIG_IDX && timecnt == 0 ==> r == Ok(0)
      ensures r.Ok? && timecnt > 0 ==>
        GetLocalTimeType(transIdx).Ok? && r.value == Column(GetLocalTimeType(transIdx).value.value, column)
      ensures FIELD_UTOFF <= column <= FIELD_DESIG_IDX && GetLocalTimeType(transIdx).Err? ==>
        r == Err(GetLocalTimeType(transIdx).error)
      ensures FIELD_UTOFF <= column <= FIELD_DESIG_IDX && GetLocalTimeType(transIdx).Ok? ==> r.Ok?
    {
      if !(FIELD_UTOFF <= column <= FIELD_DESIG_IDX) then Err(InvalidColumn)
      else
        match GetLocalTimeType(transIdx)
        case Err(e) => Err(e)
        case Ok(None) => Ok(0)
        case Ok(Some(t)) => Ok(Column(t, column))
    }

    /** `get_transition_offset`: the UT offset, in seconds, of the transition's type. */
    function GetTransitionOffset(transIdx: int): (r: Result<int>)
      reads this
      requires TypesRead()
      ensures r.Ok? <==> GetLocalTimeType(transIdx).Ok?
      ensures timecnt == 0 ==> r == Ok(0)
      ensures r.Ok? && timecnt > 0 ==> r.value == GetLocalTimeType(transIdx).value.value.utoff
    {
      GetLocalTimeTypeField(transIdx, FIELD_UTOFF)
    }

    /** `get_transition_isdst`: the DST flag byte of the transition's type. */
    function GetTransitionIsDst(transIdx: int): (r: Result<int>)
      reads this
      requires TypesRead()
      ensures r.Ok? <==> GetLocalTimeType(transIdx).Ok?
      ensures timecnt == 0 ==> r == Ok(0)
      ensures r.Ok? && timecnt > 0 ==> r.value == GetLocalTimeType(transIdx).value.value.isdst
    {
      GetLocalTimeTypeField(transIdx, FIELD_ISDST)
    }

    /** `get_transition_desig_index`: the designation index of the transition's type. */
    function GetTransitionDesigIndex(transIdx: int): (r: Result<int>)
      reads this
      requires TypesRead()
      ensures r.Ok? <==> GetLocalTimeType(transIdx).Ok?
      ensures timecnt == 0 ==> r == Ok(0)
      ensures r.Ok? && timecnt > 0 ==> r.value == GetLocalTimeType(transIdx).value.value.desigidx
    {
      GetLocalTimeTypeField(transIdx, FIELD_DESIG_IDX)
    }
  }
}

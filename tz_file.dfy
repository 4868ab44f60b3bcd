/**
 * Whole TZif files as a writer lays them out (section 3 of RFC 8536), and
 * what `read` makes of them: the header and data block come back as written,
 * the 32-bit block of a version-2+ file is skipped without being looked at,
 * and the footer is kept byte for byte.
 */
module TzFile {
  import opened BigEndian
  import opened TzFormat
  import opened TzInfo

  /** A legacy file: the header and its 32-bit data block, then `rest`. */
  function EncodeLegacyFile(c: Content, rest: seq<Byte>): seq<Byte>
  {
    EncodeHeader(HeaderFor(c, LEGACY)) + (EncodeBlock(c, 4) + rest)
  }

  /**
   * A version-2+ file: the first header, its 32-bit block (`skipped`, any bytes
   * of the right length), the second header, the 64-bit block and the footer.
   */
  function EncodeExtendedFile(first: Header, skipped: seq<Byte>, c: Content, version: Byte, footer: seq<Byte>): seq<Byte>
  {
    EncodeHeader(first) + (skipped + (EncodeHeader(HeaderFor(c, version)) + (EncodeBlock(c, 8) + footer)))
  }

  /** The block step on a written block replaces exactly the fields the block has. */
  lemma BlockStepRoundTrip(s: State, c: Content, w: nat)
    requires Encodable(c, w)
    requires w == (if s.header.version == LEGACY then 4 else 8)
    requires s.header == HeaderFor(c, s.header.version)
    ensures BlockStep(s, EncodeBlock(c, w)) == (s.(block := Overlay(s.block, BlockOf(c))), Pass)
  {
    BlockRoundTrip(c, w, s.header.version);
  }

  /** `read` after the second header over a block `mem` followed by `rest`. */
  lemma ReadExtendedOver(s: State, buf: seq<Byte>, begin: nat, mem: seq<Byte>, rest: seq<Byte>)
    requires WellFormedHeader(s.header) && |mem| == DataBlockLen(s.header, 8)
    requires begin <= |buf| && buf[begin..] == mem + rest
    ensures BlockStep(s, mem).1 == Pass ==> ReadExtended(s, buf, begin) == (BlockStep(s, mem).0.(tzStrings := Some(rest)), Pass)
  {
    SplitAt(buf, begin, mem, rest);
  }

  /** After the second header: the 64-bit block is decoded and every later byte kept. */
  lemma ExtendedBlockRoundTrip(s: State, buf: seq<Byte>, begin: nat, c: Content, footer: seq<Byte>)
    requires Encodable(c, 8) && WellFormedHeader(s.header) && s.header == HeaderFor(c, s.header.version)
    requires s.header.version != LEGACY
    requires begin <= |buf| && buf[begin..] == EncodeBlock(c, 8) + footer
    ensures ReadExtended(s, buf, begin) == (State(s.header, Overlay(s.block, BlockOf(c)), Some(footer)), Pass)
  {
    BlockRoundTrip(c, 8, s.header.version);
    BlockStepRoundTrip(s, c, 8);
    ReadExtendedOver(s, buf, begin, EncodeBlock(c, 8), footer);
  }

  /** From the second header on: that header, then the 64-bit block and the footer. */
  lemma SecondHeaderRoundTrip(s: State, buf: seq<Byte>, begin: nat, c: Content, version: Byte, footer: seq<Byte>)
    requires Encodable(c, 8) && WellFormedHeader(HeaderFor(c, version)) && version != LEGACY
    requires begin <= |buf| && buf[begin..] == EncodeHeader(HeaderFor(c, version)) + (EncodeBlock(c, 8) + footer)
    ensures ReadFromSecondHeader(s, buf, begin)
         == (State(HeaderFor(c, version), Overlay(s.block, BlockOf(c)), Some(footer)), Pass)
  {
    var h := HeaderFor(c, version);
    SplitAt(buf, begin, EncodeHeader(h), EncodeBlock(c, 8) + footer);
    HeaderRoundTrip(h);
    ExtendedBlockRoundTrip(s.(header := h), buf, begin + HEADER_LEN, c, footer);
  }

  /** `read` past a first header `hdr` that parses: what follows is read under that header. */
  lemma ReadSpecOver(s: State, buf: seq<Byte>, hdr: seq<Byte>, rest: seq<Byte>)
    requires buf == hdr + rest && |hdr| == HEADER_LEN && |rest| > 0 && ParseHeader(hdr).Ok?
    ensures ReadSpec(s, buf) == ReadAfterHeader(s.(header := ParseHeader(hdr).value), buf)
  {
    assert buf[..HEADER_LEN] == hdr;
  }

  /** `read` on a written first header `first`: what follows is read under it. */
  lemma ReadSpecAfterWritten(s: State, buf: seq<Byte>, first: Header, rest: seq<Byte>)
    requires WellFormedHeader(first) && buf == EncodeHeader(first) + rest && |rest| > 0
    ensures ReadSpec(s, buf) == ReadAfterHeader(s.(header := first), buf)
  {
    HeaderRoundTrip(first);
    ReadSpecOver(s, buf, EncodeHeader(first), rest);
  }

  /**
   * A version-2+ file: whatever the first data block holds, `read` goes on at
   * the second header just past it.
   */
  lemma ReadSkipsFirstBlock(s: State, buf: seq<Byte>, skipped: seq<Byte>, rest: seq<Byte>)
    requires WellFormedHeader(s.header) && s.header.version != LEGACY && |skipped| == DataBlockLen(s.header, 4)
    requires HEADER_LEN <= |buf| && buf[HEADER_LEN..] == skipped + rest
    ensures ReadAfterHeader(s, buf) == ReadFromSecondHeader(s, buf, HEADER_LEN + |skipped|)
  {
  }

  /** A legacy file: `read` decodes the block `mem` after the header and ignores the rest. */
  lemma ReadLegacyOver(s: State, buf: seq<Byte>, mem: seq<Byte>, rest: seq<Byte>)
    requires WellFormedHeader(s.header) && s.header.version == LEGACY && |mem| == DataBlockLen(s.header, 4)
    requires HEADER_LEN <= |buf| && buf[HEADER_LEN..] == mem + rest
    ensures ReadAfterHeader(s, buf) == BlockStep(s, mem)
  {
    SplitAt(buf, HEADER_LEN, mem, rest);
  }

  /**
   * A version-2+ file reads back as its second header, its 64-bit block over
   * the fields the reader held, and its footer verbatim, whatever the skipped
   * 32-bit block holds.
   */
  lemma ExtendedFileRoundTrip(s: State, first: Header, skipped: seq<Byte>, c: Content, version: Byte, footer: seq<Byte>)
    requires WellFormedHeader(first) && first.version != LEGACY && |skipped| == DataBlockLen(first, 4)
    requires Encodable(c, 8) && WellFormedHeader(HeaderFor(c, version)) && version != LEGACY
    ensures ReadSpec(s, EncodeExtendedFile(first, skipped, c, version, footer))
         == (State(HeaderFor(c, version), Overlay(s.block, BlockOf(c)), Some(footer)), Pass)
  {
    var rest := EncodeHeader(HeaderFor(c, version)) + (EncodeBlock(c, 8) + footer);
    var buf := EncodeExtendedFile(first, skipped, c, version, footer);
    ReadSpecAfterWritten(s, buf, first, skipped + rest);
    var s1 := s.(header := first);
    ReadSkipsFirstBlock(s1, buf, skipped, rest);
    SplitAt(buf, HEADER_LEN, skipped, rest);
    SecondHeaderRoundTrip(s1, buf, HEADER_LEN + |skipped|, c, version, footer);
  }

  /**
   * A legacy file reads back as its header and its 32-bit block over the
   * fields the reader held; the footer is left as it was. `read` demands
   * more than the 44 header bytes.
   */
  lemma LegacyFileRoundTrip(s: State, c: Content, rest: seq<Byte>)
    requires Encodable(c, 4) && WellFormedHeader(HeaderFor(c, LEGACY))
    requires |EncodeBlock(c, 4) + rest| > 0
    ensures ReadSpec(s, EncodeLegacyFile(c, rest))
         == (State(HeaderFor(c, LEGACY), Overlay(s.block, BlockOf(c)), s.tzStrings), Pass)
  {
    var h := HeaderFor(c, LEGACY);
    var buf := EncodeLegacyFile(c, rest);
    ReadSpecAfterWritten(s, buf, h, EncodeBlock(c, 4) + rest);
    var s1 := s.(header := h);
    BlockRoundTrip(c, 4, LEGACY);
    ReadLegacyOver(s1, buf, EncodeBlock(c, 4), rest);
    BlockStepRoundTrip(s1, c, 4);
  }
}

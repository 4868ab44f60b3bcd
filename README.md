# TZif reader and lookup

A Dafny model of `tz_info.py`. That file is a reader for the TZif time-zone
file format of RFC 8536, together with a transition lookup. The model covers:

- **The header reader** (`read_header`). It reads the 44-byte header of
  section 3.1 of RFC 8536: the magic "TZif", the version byte, 15 bytes of
  padding and six big-endian unsigned 32-bit counts. It checks the magic,
  the version and the two indicator counts.
- **The data-block length and decoder** (`get_data_block_len`,
  `read_data_block`). A cursor walks the block of section 3.2 in file order:
  - transition times (4 or 8 bytes each);
  - transition types;
  - 6-byte local time type records;
  - designations;
  - leap-second records;
  - standard/wall indicators;
  - UT/local indicators.
- **The orchestrator** (`read`, `read_footer`). A version-2+ file has its
  32-bit block skipped. Its second header and 64-bit block are decoded, and
  the footer of section 3.3 is kept verbatim.
- **The lookups.** The recursive bisection `__search_transition_index`,
  `get_transition_index`, `get_local_time_type`,
  `get_local_time_type_field` and the three field accessors.

The Python class becomes the Dafny class `TzInfo.TZInfo`, whose methods
update its fields. The file's contents are passed to `Read` as a byte
sequence, so no file is opened. Each method is proved against a
specification function on a value `State` that gathers the fields:
`HeaderStep`, `BlockStep` and `ReadSpec`. The properties are proved about
those functions.

`struct.unpack` is modelled by explicit big-endian decoders in
`BigEndian`. The `AssertionError`s and `struct.error`s of the Python code
become an `Outcome` (for the reader) or a `Result` (for the lookups) that
carries an `Error`. The search and the lookups are functions over the
fields, as they are in the source.

Modules:

- `BigEndian` (big_endian.dfy): byte decoding and encoding, and Python
  slicing.
- `TzFormat` (tz_format.dfy): the header and data-block layouts as pure
  functions, their encoders and the round trips.
- `TzSearch` (tz_search.dfy): the bisection and its reference definition.
- `TzInfo` (tz_info.dfy): the reader class, its specification functions and
  the lookups.
- `TzLookup` (tz_lookup.dfy): what a lookup answers for a timestamp.
- `TzFile` (tz_file.dfy): whole files as a writer lays them out, read back.

Where this model and the format's usual description differ, the model
follows `tz_info.py`:

- The search is recursive. It is proved correct for strictly ascending
  tables; `TzSearch.RepeatedTimeNotFloor` shows that a repeated time can
  break it.
- There is no default record before the first transition: the index is -1
  and the lookup fails.
- `desigidx` is not checked against `charcnt`.
- The reader checks neither that the transition times ascend nor that
  each transition type names a record. The only check is at lookup
  (`get_local_time_type`, tz_info.py:215), and the model leaves both
  unchecked in the same way.
- A block cut short inside its designations, with no leap-second records
  or indicators after them, is accepted with fewer designation bytes,
  because Python slices clamp. When any of those follow, the next
  `struct.unpack` gets a short slice and the read fails.
- A read that fails part-way keeps the fields it had already stored.
- `isdst` is kept as the byte read, not as a boolean.

## Model

| member | source | states |
|---|---|---|
| BigEndian.SignedRoundTrip | tz_info.py:106 | A value in the signed range of `w` bytes, encoded in two's complement and decoded as `struct` `l`/`q` does, gives back the value |
| BigEndian.EncodeOfSigned | tz_info.py:106 | Every `w`-byte string decodes to a value in the signed range, and re-encoding that value gives back the same bytes |
| BigEndian.UnsignedRoundTrip | tz_info.py:62 | A value below 256^w survives a big-endian unsigned encode and decode |
| BigEndian.EncodeOfUnsigned | tz_info.py:62 | Every byte string is the `w`-byte encoding of its unsigned value |
| BigEndian.WidenedTimeAgrees | tz_info.py:102-106 | A 4-byte time value sign-extended to 8 bytes and read with `q` equals the value read with `l` |
| BigEndian.Slice | tz_info.py:106-110 | Python's `s[i:j]`: the length is clamped to the string, and element `k` is `s[i+k]` |
| BigEndian.Drop | tz_info.py:176 | Python's `s[i:]`: its length is `|s| - i` (0 past the end), and element `k` is `s[i+k]` |
| TzFormat.DecodeHeader | tz_info.py:60-67 | A header is read iff the string is 44 bytes long, has the magic, passes the version test and has consistent indicator counts. Otherwise the first failing test gives the error: struct error, bad magic, unsupported version, inconsistent counts. A header that is read is well-formed, with version == byte 4; the test as written never yields a legacy version |
| TzFormat.PaddingIgnored | tz_info.py:10 | The 15 padding bytes are skipped: replacing them with any other 15 bytes leaves the result of reading the header unchanged |
| TzFormat.CountAtIsUnsigned | tz_info.py:62 | Count `k` is the big-endian unsigned value of bytes `[20+4k, 24+4k)` |
| TzFormat.HeaderRoundTrip | tz_info.py:60-75 | Every well-formed header, written and read back, is the same header |
| TzFormat.ParsedHeaderReencodes | tz_info.py:61-62 | A header that was read, written back, reproduces the bytes read except that the padding becomes zeros |
| TzFormat.LegacyHeaderRejectedAsWritten | tz_info.py:65 | The version test as written rejects every well-formed legacy header, which the corrected test reads back unchanged |
| TzFormat.DataBlockLen | tz_info.py:77-91 | The length formula of section 3.2 of RFC 8536 ends exactly where the UT/local indicators end |
| TzFormat.DecodeBlock | tz_info.py:93-148 | Decoding succeeds iff every field with a non-zero count fits (the designations are exempt), and otherwise fails with a struct error; on success each field is present iff its count is non-zero and has that many entries, except the designations, which may be shorter |
| TzFormat.DecodeBlockConsumesLength | tz_info.py:99-148 | Given at least `DataBlockLen` bytes, the decoder succeeds and reads only the first `DataBlockLen` of them |
| TzFormat.TruncatedDesignationsAccepted | tz_info.py:124-126 | A block cut inside its designations, with nothing after them, is read without error and with fewer than `charcnt` designation bytes |
| TzFormat.DecodeLocalTimeType | tz_info.py:120 | A 6-byte record decodes to a signed 32-bit offset, then the DST byte (byte 4), then the designation index (byte 5) |
| TzFormat.DecodeLeapRecord | tz_info.py:137 | A `(w+4)`-byte record decodes to a signed `w`-byte occurrence and a signed 32-bit correction |
| TzFormat.TimesRoundTrip | tz_info.py:101-106 | Transition times in range, written with `w` bytes each, take `n*w` bytes and decode back to the same times |
| TzFormat.RecordsRoundTrip | tz_info.py:113-122 | Local time type records take 6 bytes each and decode back to the same records |
| TzFormat.LeapsRoundTrip | tz_info.py:128-139 | Leap-second records take `w+4` bytes each and decode back to the same records |
| TzFormat.DecodeLeapsSnoc | tz_info.py:131-137 | Decoding one more leap record extends the decoded prefix by exactly that record |
| TzFormat.BlockLayout | tz_info.py:99-148 | In a written block each field lies at the offset where the decoder's cursor finds it |
| TzFormat.BlockRoundTrip | tz_info.py:93-148 | A written data block is exactly `DataBlockLen` bytes long and reads back every non-empty field, with no error |
| TzFormat.WidenedTimesAgree | tz_info.py:102-106 | A 32-bit time table sign-extended to 64 bits decodes to the same transition times |
| TzSearch.Floor | tz_info.py:178-201 | Reference answer: the last index whose time is at or before `t` (-1 if none), with every later time after `t` |
| TzSearch.SearchTransitionIndex | tz_info.py:178-201 | The bisection returns an index in `[-1, n)`, and -1 exactly when `t` is before both the first and the last time |
| TzSearch.SearchFindsFloor | tz_info.py:185-201 | Under the recursion's invariant (`times[begin] <= t`, answer in `[begin, end]`) and ascending times, the search returns the reference answer |
| TzSearch.BisectionFindsFloor | tz_info.py:185-201 | The same for `t` inside the table's range, by induction on `end - begin`, which every recursive call shrinks |
| TzSearch.TransitionIndexIsFloor | tz_info.py:203-207 | On a strictly ascending table, the search over the whole table equals `Floor` |
| TzSearch.TransitionIndexCases | tz_info.py:178-207 | Before the first time the result is -1; at or after the last it is `n-1`; otherwise it is `i` with `times[i] <= t < times[i+1]` |
| TzSearch.TransitionIndexExact | tz_info.py:178-207 | Searching for `times[k]` returns `k` |
| TzSearch.RepeatedTimeNotFloor | tz_info.py:194-201 | With a repeated time the search stops at the first copy it probes, not the last one at or before `t` |
| TzInfo.HeaderStep | tz_info.py:60-75 | A header step that succeeds stores a well-formed header read from `mem`: written back, it gives `mem` with zero padding, so its version is byte 4 and its counts are bytes 20 to 43. Nothing else changes. One that fails changes nothing |
| TzInfo.ReadSpec | tz_info.py:153-176 | A buffer of at most 44 bytes fails and changes nothing; a successful read leaves a well-formed header and every table whose count is non-zero present at its length (the designations at most at theirs) |
| TzInfo.BlockStep | tz_info.py:93-148 | A data block step keeps the header and the footer; when it succeeds, every table whose count is non-zero is present at its length (the designations at most at theirs) |
| TzInfo.UnpackLocalTimeTypes | tz_info.py:113-122 | The record loop returns the records decoded from bytes `[6i, 6i+6)`, or fails when the region is short |
| TzInfo.UnpackLeapSeconds | tz_info.py:128-139 | The leap-second loop returns the records decoded from bytes `[i(w+4), (i+1)(w+4))`, or fails when the region is short |
| TzInfo.DecodeDataBlock | tz_info.py:93-148 | The cursor walk returns exactly the fields and outcome of `DecodeBlock` |
| TzInfo.ReadTransitions | tz_info.py:101-111 | It reads the times and types, leaves the cursor at the start of the records, and either stops with the decoder's result or hands on to the later stages |
| TzInfo.ReadRecordsAndDesignations | tz_info.py:113-126 | It reads the records and designations and leaves the cursor at the start of the leap records |
| TzInfo.ReadLeapSeconds | tz_info.py:128-139 | It reads the leap records and leaves the cursor at the start of the standard/wall indicators |
| TzInfo.ReadIndicators | tz_info.py:141-148 | It reads the two indicator tables, as `DecodeIndicators` does |
| TzInfo.TZInfo.constructor | tz_info.py:12-29 | A new reader has version and counts 0 and no tables |
| TzInfo.TZInfo.ReadHeader | tz_info.py:60-75 | The reader's fields become those of `HeaderStep` |
| TzInfo.TZInfo.StoreHeader | tz_info.py:69-75 | The version and the six counts are replaced and nothing else changes |
| TzInfo.TZInfo.GetDataBlockLen | tz_info.py:77-91 | The block length uses 4-byte times when the argument is 1 and 8-byte times otherwise |
| TzInfo.TZInfo.ReadDataBlock | tz_info.py:93-148 | The reader's fields become those of `BlockStep`: 4-byte times under a legacy header, 8 otherwise, with the fields read before an error kept |
| TzInfo.TZInfo.StoreFields | tz_info.py:106-148 | The seven table fields are replaced and nothing else changes |
| TzInfo.TZInfo.ReadFooter | tz_info.py:150-151 | The footer is stored verbatim and nothing else changes |
| TzInfo.TZInfo.Read | tz_info.py:153-176 | The reader's fields and outcome are those of `ReadSpec` on the buffer |
| TzInfo.TZInfo.ReadAfterFirstHeader | tz_info.py:163-167 | After the first header: a legacy file's 32-bit block, or the second header just past the skipped block |
| TzInfo.TZInfo.ReadSecondHeader | tz_info.py:169-171 | From the second header on, as `ReadFromSecondHeader` |
| TzInfo.TZInfo.ReadExtendedBlock | tz_info.py:172-176 | The 64-bit block, then every remaining byte as the footer, as `ReadExtended` |
| TzInfo.TZInfo.GetTransitionIndex | tz_info.py:203-207 | -1 without transitions; otherwise an index in `[-1, timecnt)`, which on an ascending table is `Floor`; it needs only the transition times |
| TzInfo.TZInfo.GetLocalTimeType | tz_info.py:209-216 | Nothing iff there are no transitions; an invalid transition index or type index is an error, each case stated both ways; a valid index whose type names a record gives that record |
| TzInfo.TZInfo.GetLocalTimeTypeField | tz_info.py:222-228 | A column outside 0..2 is an error; without transitions the answer is 0; for a valid column it succeeds iff the lookup does, with the record's column, and otherwise fails with the lookup's error |
| TzInfo.TZInfo.GetTransitionOffset | tz_info.py:230-231 | Defined iff the lookup is; 0 without transitions; otherwise the record's UT offset |
| TzInfo.TZInfo.GetTransitionIsDst | tz_info.py:233-234 | Defined iff the lookup is; 0 without transitions; otherwise the record's DST byte |
| TzInfo.TZInfo.GetTransitionDesigIndex | tz_info.py:236-237 | Defined iff the lookup is; 0 without transitions; otherwise the record's designation index |
| TzLookup.LookupAtTimestamp | tz_info.py:203-216 | On a valid table: before the first transition the index is -1 and the lookup fails; otherwise the index brackets `t` and the lookup is that transition's record |
| TzLookup.OffsetAtTransition | tz_info.py:203-231 | At transition time `k` the index is `k`, and the offset is that transition's record's offset |
| TzFile.ReadSkipsFirstBlock | tz_info.py:163-170 | For a version-2+ file, whatever the first data block holds, `read` goes on at the second header just past it |
| TzFile.ExtendedFileRoundTrip | tz_info.py:153-176 | A written version-2+ file reads back as its second header, its 64-bit block and its footer byte for byte, whatever the 32-bit block holds |
| TzFile.LegacyFileRoundTrip | tz_info.py:157-167 | A written legacy file reads back as its header and its 32-bit block, and the footer field is left as it was |

## Left out

- Opening the file (`basedir`, `BASEDIR` and the path join): the buffer is a parameter of `Read`.
- `__str__`: a diagnostic text dump.
- `utoff_strftime`: formatting through the platform's `time.gmtime` and `time.strftime`.
- The footer's POSIX TZ string: the reader stores it verbatim and never interprets it.
- The internals of `struct`: only the big-endian decoding the reader relies on is modelled. A slice of the wrong length is a `StructError`.
- Python's `-O` flag, which strips `assert` statements: every assertion is modelled as a check that fails the read or the lookup.
- Exceptions: each failing assertion or `struct.error` becomes a returned `Error`. Where in the sequence of assignments a failure stops is modelled exactly.
- TzInfo.TZInfo.Read: the Python method is one body. Here it is split into `ReadHeader`, `ReadAfterFirstHeader`, `ReadSecondHeader` and `ReadExtendedBlock`, and the field assignments are grouped into `StoreHeader` and `StoreFields`. The state changes are the same.
- TzInfo.TZInfo.GetTransitionIndex: it is related to `Floor` only for strictly ascending tables, the validity condition of section 3.2 of RFC 8536. For other tables only its range is stated.
- The lookups require what the Python code indexes without checking. `GetTransitionIndex` requires the transition times at their count. The record lookups require the transition types and the records at their counts (`TZInfo.TypesRead`). Both hold after a successful `Read`.

## Findings

| source | as written | input that shows it | evidently intended | confidence | as-written member | corrected member |
|---|---|---|---|---|---|---|
| tz_info.py:65 | `ver == 0` compares the one-byte string `ver` with the integer 0. In Python 3 this is never true, so a version-0 (legacy) file fails the assertion, and the `version == 0` branches at lines 94, 102, 133 and 166 are never taken | a well-formed 44-byte header whose version byte is 0x00 | accept the NUL version byte and read the 32-bit data block. That needs the version stored as a number: the four `self.version == 0` tests at lines 94, 102, 133 and 166 are corrected too, with '2' and '3' stored as 0x32 and 0x33. Correcting line 65 alone would leave the version a one-byte string, and a legacy file would then fail at the missing second header | high (not executed) | TzFormat.LegacyHeaderRejectedAsWritten | TzFormat.HeaderRoundTrip |

The rest of the model uses the corrected reading: the header test of
`TzFormat.ParseHeader` and a numeric version byte in `TzInfo.BlockStep` and
`TzInfo.ReadAfterHeader`. Under it a legacy file is read with 4-byte times
(`TzFile.LegacyFileRoundTrip`).

This reading inherits one inconsistency from the code. Take a version-2+ file
whose second header carries the version byte 0x00. At line 173,
`get_data_block_len(self.version)` measures its block with 8-byte times,
because 0 is not 1 (`TzInfo.ReadExtended`). At line 94 the same block is then
decoded with 4-byte times (`TzInfo.BlockStep`). The model keeps both as
written. Under the code as written the case cannot arise, because line 65
rejects the 0x00 byte.

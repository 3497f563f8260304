# Pluggit ventilation poller, modelled in Dafny

The modelled program polls a Pluggit ventilation unit over Modbus. One poll:

1. Reads a fixed series of holding-register blocks.
2. Packs each reply into a little-endian byte buffer.
3. Decodes each buffer into the named fields of a sample:
   - serial, name and firmware version;
   - fan speeds and temperatures;
   - humidity and bypass;
   - speed level, operating state, last alarm;
   - filter days and work hours;
   - a `YYYYMMDDhhmmss` timestamp.
4. Ends at the first failed block with an error and no sample.

Each sample is then compared with the last one cached for the device (`checkModified`). Only a change is cached and written to the database (`storeDatabase`). The database write works like this:

- the device row is created when its serial is new;
- the device's statistics are overwritten;
- a datapoint row is appended;
- a state row is added unless the device's latest state row already carries the same state and alarm.

Modules, one per part of the program:

- `Wrappers`: `Option` and `Result`.
- `Decimal`: decimal digit strings and their values. For a non-negative integer up to 2^53 this is JavaScript's number-to-string conversion. Above that, JavaScript prints the shortest digits that identify the double, and most such integers are not JavaScript numbers at all. The model uses it only on years, two-digit calendar fields and bytes.
- `Timestamp` (timestamp.js): `now` on given calendar fields, `pad2`, `parseDate`.
- `Buffer`: Node's `writeUInt16LE`/`readUInt16LE`/`readUInt32LE` on byte sequences, register packing, and JavaScript's `ToInt32`.
- `Pluggit` (pluggit.js):
  - the label tables;
  - the per-block decoders;
  - `readBlock` as a method over an array;
  - `requestBlock` as a loop over the block table, proved equal to a recursive walk (`Walk`) about which the ordering, abort and field properties are proved.
- `Datastore` (utils/datastore.js): the cache as a class over a map, with `get`, `set` and the load fallback.
- `ChangeDetection` (index.js `checkModified`, `distance`):
  - the three loops with `break` as a method, proved equal to a declarative rule `Modified`;
  - the threshold and ignored-field properties are proved about that rule.
- `Persistence` (index.js `storeDatabase`):
  - the table effects of the four statements as functions on in-memory tables;
  - a `Database` class whose methods run them in order;
  - the device-resolution, state de-duplication and validity properties.
- `Adapter` (index.js `'data'` handler): change detection followed by storage.

Representation choices:

- Temperatures are integers in hundredths of a degree. Fan speeds are integers in tenths of an rpm. The source rounds the device's floats with `toFixed(2)` and `toFixed(1)`.
- A sample's `timestamp` is the number its 14-digit string denotes. `checkModified` computes with it. The SQL statements send its digits, which MySQL converts to the column's type: the data-row INSERT sends them as a quoted string (index.js:171-172), the state INSERT bare (index.js:180). The cache file keeps the string. The model keeps the number the string denotes.
- The device is a function from `(start, len)` to a register list or a failure.
- Float decoding is a function parameter `FloatFixed`.
- The clock's seconds-since-epoch is a function parameter `Seconds`.
- Which database statements fail is a parameter `Faults`.
- The name is kept as bytes.
- The alarm label's fallback is the literal `unkown`, spelt as the code spells it (pluggit.js:196).

## Model

| member | source | states |
|---|---|---|
| `Decimal.Show` | timestamp.js:9-14 | The decimal rendering of a number: at least one digit, its digits denote the number, and there is no leading zero. |
| `Decimal.ValueOfConcat` | timestamp.js:9-14 | The value of a concatenation of digit strings is the first part's value shifted by the second part's length, plus the second part's value. |
| `Timestamp.Pad2` | timestamp.js:4-6 | For 0..9, "0" followed by the digit; for 10 and above, the number's own digits. Always digits denoting n; exactly two characters below 100. |
| `Timestamp.Now` | timestamp.js:3-15 | The formatted timestamp of the given calendar fields is all digits. Its value and length are stated by `NowValue` and `NowLength`. |
| `Timestamp.NowValue` | timestamp.js:9-14 | The formatted timestamp denotes year·10^10 + month·10^8 + day·10^6 + hour·10^4 + minute·10^2 + second, where month = monthIndex + 1. |
| `Timestamp.NowLength` | timestamp.js:9-14 | A four-digit year gives exactly 14 characters. |
| `Timestamp.ParseDate` | timestamp.js:17-25 | The extracted fields recompose to the input number. Seconds, minutes, hours, day and month are base-100 digits, and monthIndex is month − 1. |
| `Timestamp.ParseCompact` | timestamp.js:17-25 | Taking a compact number apart gives back the fields it was built from, for any fields below 100 and any year. |
| `Timestamp.RoundTrip` | timestamp.js:3-26 | Parsing the formatted value gives back every field, for any fields below 100 and any year. |
| `Timestamp.CalendarRoundTrip` | timestamp.js:3-26 | The round trip holds for every real date: month 1..12, day 1..31, hour 0..23, minute and second 0..59, any year. |
| `Buffer.Pack` | pluggit.js:85-88 | The packed buffer is twice as long as the register list. |
| `Buffer.UInt16LE` | pluggit.js:182 | A little-endian 16-bit read is below 2^16. |
| `Buffer.UInt32LE` | pluggit.js:174-175 | A little-endian 32-bit read is below 2^32 and equals the lower 16-bit word plus 2^16 times the upper one. |
| `Buffer.ToInt32` | pluggit.js:149 | The signed 32-bit reinterpretation lies in [−2^31, 2^31) and is congruent to its input modulo 2^32. |
| `Buffer.PackedRegister` | pluggit.js:85-88 | Register i sits at bytes 2i (low) and 2i+1 (high), and `UInt16LE` at 2i gives it back. |
| `Buffer.PackedPair` | pluggit.js:85-88 | `UInt32LE` at 2i of the packed buffer is register i plus 2^16 times register i+1. |
| `Buffer.UnpackPack` | pluggit.js:85-88 | Packing loses nothing: unpacking the buffer gives back the registers. |
| `Pluggit.Label` | pluggit.js:176 | The table lookup with a fallback: the entry for a mapped code with a non-empty label, otherwise the fallback. The result is always the fallback or one of the table's labels. |
| `Pluggit.BypassLabel` | pluggit.js:176 | The bypass label is "unknown" or one of the bypass table's labels. |
| `Pluggit.StateLabel` | pluggit.js:189 | The state label is "unknown" or one of the state table's labels. |
| `Pluggit.AlarmLabel` | pluggit.js:196 | The alarm label is the literal "unkown" or one of the alarm table's labels. |
| `Pluggit.BypassLabelCases` | pluggit.js:176 | `bypassState` is the table entry for a mapped code, and "unknown" exactly for the unmapped ones. |
| `Pluggit.StateLabelCases` | pluggit.js:189 | `stateText` is the table entry for a mapped code, and "unknown" exactly for the unmapped ones. |
| `Pluggit.AlarmLabelCases` | pluggit.js:196 | `alarmState` is the table entry for a mapped code, and the literal "unkown" exactly for the unmapped ones. |
| `Pluggit.SerialAsWritten` | pluggit.js:149 | The serial as the code computes it lies in [−2^31, 2^32 + 2^31 − 1). With the high word below 2^31 it is low + high; otherwise it is low + high − 2^32. |
| `Pluggit.Serial` | pluggit.js:149 | The corrected serial, low + high·2^32, is below 2^64. |
| `Pluggit.SerialAsWrittenCollides` | pluggit.js:149 | As written, two different serial-number words give the same serial 1, and that serial is not low + high·2^32. |
| `Pluggit.SerialWords` | pluggit.js:149 | The corrected serial determines both 32-bit words: modulo 2^32 it is the low word, and divided by 2^32 it is the high word. |
| `Pluggit.SerialsAgreeOnZeroHighWord` | pluggit.js:149 | When bytes 8..11 are zero, the code as written and the corrected serial agree, and both are `UInt32LE(4)`. |
| `Pluggit.StripNul` | pluggit.js:150 | The stripped name is as long as the input minus the number of its NUL bytes. |
| `Pluggit.StripNulRemovesOnlyNul` | pluggit.js:150 | The stripped name has no NUL byte, keeps every other byte as often as it occurs, and equals the input when the input has no NUL. |
| `Pluggit.StripNulConcat` | pluggit.js:150 | NULs are removed wherever they stand: stripping a concatenation strips each part. |
| `Pluggit.DecodeIdentity` | pluggit.js:147-151 | Block 0 sets only the serial, the name and the version, and the name has at most 20 bytes. |
| `Pluggit.DecodeFans` | pluggit.js:155-159 | Block 1 sets only the two fan speeds. |
| `Pluggit.DecodeTemperatures` | pluggit.js:162-169 | Block 2 sets only the five temperatures. |
| `Pluggit.DecodeClimate` | pluggit.js:172-177 | Block 3 sets only humidity, bypass and the bypass label, and both numbers are below 2^32. |
| `Pluggit.DecodeCounter` | pluggit.js:180-210 | Each of blocks 4 to 8 sets only its own field (with its label for state and alarm). The 16-bit fields are below 2^16 and the work time is below 2^32. |
| `Pluggit.DecodeBlock` | pluggit.js:146-210 | A block decodes exactly when its buffer has the bytes its reads need; a shorter one makes the Buffer read throw. |
| `Pluggit.DecodeBlockLocal` | pluggit.js:146-210 | A block's decoder changes only that block's fields, and what it writes depends on the buffer alone. |
| `Pluggit.BlockBuffer` | pluggit.js:74-93 | `readBlock` rejects with a read error exactly when the device does not answer. Otherwise it resolves with the packed reply. |
| `Pluggit.Walk` | pluggit.js:143-226 | `requestBlock` from block `index` requests at most the remaining blocks, and a successful walk carries the timestamp taken at block 9. |
| `Pluggit.WalkStops` | pluggit.js:77-82 | An unreadable block is the last one requested, and the error is a read error, or a range error for a short reply. |
| `Pluggit.WalkInOrder` | pluggit.js:143-226 | Blocks are requested as a prefix of the fixed table, in table order, each at most once. Every block before the last one requested was readable. |
| `Pluggit.WalkSucceeds` | pluggit.js:61-63 | A poll yields a sample exactly when every block is readable, and then all nine blocks were requested. |
| `Pluggit.WalkFails` | pluggit.js:64-67 | A failed poll names the last block requested, which is unreadable, and requests nothing after it. |
| `Pluggit.WalkFields` | pluggit.js:143-226 | A successful walk keeps the fields of earlier blocks and gives each later block's fields as that block's reply decodes them. Block 9 only sets the timestamp. |
| `Pluggit.IdentityDecoded` | pluggit.js:147-151 | Block (2,23) alone gives the serial as the code computes it: registers 2-3 as a 32-bit word plus `ToInt32` of registers 4-5. It also gives the name of bytes 12..31 without NULs, and version byte 45 "." byte 44. |
| `Pluggit.FloatsDecoded` | pluggit.js:155-168 | Block (100,4) alone gives fan1 and fan2 as the floats at byte offsets 0 and 4 to one decimal. Block (132,20) gives t1 to t5 as the floats at offsets 0, 4, 8, 12 and 16 to two decimals. |
| `Pluggit.ClimateDecoded` | pluggit.js:172-176 | Block (196,4) alone gives humidity from registers 0-1 and bypass from registers 2-3 as 32-bit words, plus the bypass label. |
| `Pluggit.CountersDecoded` | pluggit.js:180-202 | Blocks (324,1), (472,1), (516,1) and (554,1) give speed, state, alarm and filter days as register 0, plus the state and alarm labels. |
| `Pluggit.WorkTimeDecoded` | pluggit.js:206-208 | Block (624,2) alone gives the work time as registers 0-1 in little-endian order. |
| `Pluggit.PollDecoded` | pluggit.js:146-225 | A successful poll carries every block's fields as its reply decodes them, and the timestamp taken at the end. |
| `Pluggit.PollIdentity` | pluggit.js:147-151 | The serial (as the code computes it), name and version of a successful poll, in terms of block (2,23)'s packed registers. |
| `Pluggit.PollIntegers` | pluggit.js:172-208 | The integer fields of a successful poll equal the registers the device answered, with the labels of the coded ones. |
| `Pluggit.PollFloats` | pluggit.js:155-168 | The fan speeds and temperatures of a successful poll are the floats of blocks 1 and 2 at their byte offsets, rounded to one and two decimals. |
| `Pluggit.ReadBlock` | pluggit.js:74-93 | The loop writes each register little-endian at twice its index, so the buffer is the packed reply. A failed request is a read error. |
| `Pluggit.RequestBlocks` | pluggit.js:143-226 | The loop over the block table gives the same result and the same requests, in the same order, as the recursive walk. |
| `Datastore.Reload` | utils/datastore.js:12-22 | A parsed file gives its entries; a missing or unparsable one gives the empty cache. |
| `Datastore.Find` | utils/datastore.js:40-45 | `get` finds a value exactly for stored ids, and it is the stored one. An unknown id gives null. |
| `Datastore.FindAfterStore` | utils/datastore.js:47-52 | After `set(id, v)`, `get(id)` is v, and every other id reads as before. |
| `Datastore.Cache.constructor` | utils/datastore.js:10 | The cache starts as what `reload` gives: empty for a missing or unparsable file. |
| `Datastore.Cache.Get` | utils/datastore.js:40-45 | The stored entry for a cached id, and null (None) for any other. |
| `Datastore.Cache.Set` | utils/datastore.js:47-54 | The entry is replaced wholesale by the value, and no other entry changes. |
| `ChangeDetection.Distance` | index.js:48-50 | The absolute difference: zero exactly for equal readings, and no less than either signed difference. |
| `ChangeDetection.Modified` | index.js:52-101 | No cached entry, or more than 300 s apart, is always a change. With the same compared readings, it is a change exactly when more than 300 s apart. |
| `ChangeDetection.Changed` | index.js:52-101 | The flag and three early-exit loops decide exactly the declarative rule: no entry, over 300 s apart, a temperature moved over 0.1, a fan over 100, or a discrete field differs. |
| `ChangeDetection.CheckModified` | index.js:52-109 | Answers the rule against the cached entry, replaces that entry by the sample exactly when the answer is yes, and otherwise leaves the cache as it was. |
| `ChangeDetection.ModifiedWithoutEntry` | index.js:98-101 | With no cached entry the answer is yes. |
| `ChangeDetection.NotModifiedBySelf` | index.js:52-101 | A sample compared with itself is no change. |
| `ChangeDetection.TimeoutEitherWay` | index.js:56-59 | More than 300 seconds in either direction is a change. |
| `ChangeDetection.SameReadingsOnlyTimeout` | index.js:56-97 | With equal compared readings, the answer is yes exactly when the samples are over 300 s apart. |
| `ChangeDetection.TemperatureThreshold` | index.js:62-71 | In a sample at any timestamp within 300 s of the cached one, a single temperature moving is a change exactly when it moves by more than 0.1. A move of exactly 0.1 is not. |
| `ChangeDetection.FanThreshold` | index.js:75-84 | In a sample at any timestamp within 300 s of the cached one, a single fan moving is a change exactly when it moves by more than 100. A move of exactly 100 is not. |
| `ChangeDetection.DiscreteThreshold` | index.js:88-96 | In a sample at any timestamp within 300 s of the cached one, a single humidity, bypass, speed, state or alarm value is a change exactly when it differs. |
| `ChangeDetection.UncomparedFieldsIgnored` | index.js:88-96 | Name, version, serial, filter time, work time and the labels never change the answer. |
| `Persistence.FindDevice` | index.js:139-147 | The lookup by serial finds a row exactly when one has that serial, and gives the id of the first such row. |
| `Persistence.FindDeviceAppend` | index.js:149-157 | A row appended after the existing ones is found only when no earlier row has its serial. |
| `Persistence.Resolve` | index.js:137-162 | `findDeviceId` rejects exactly when the lookup fails, or when the serial is new and the insert fails. On success the serial is found at the returned id, and the datapoint and state tables are unchanged. |
| `Persistence.ResolveExisting` | index.js:146-147 | An existing serial gives its device's id and inserts nothing. |
| `Persistence.ResolveNew` | index.js:148-158 | An unknown serial inserts exactly the row (serial, name) with the next id, and returns that id. |
| `Persistence.ResolveIdempotent` | index.js:137-162 | Resolving the same serial again gives the same id and changes nothing, so no serial gets a second row. |
| `Persistence.ResolvePreservesValid` | index.js:137-162 | Resolution keeps ids and serials unique and below the counter, and gives an id of an existing row. |
| `Persistence.WithStats` | index.js:164-169 | Only the row with the id gets the sample's name, filter time, work time and version. Ids and serials are unchanged. |
| `Persistence.DataPoint` | index.js:171-176 | The appended datapoint row carries the device id, the sample's timestamp and its ten readings. |
| `Persistence.LatestTimestamp` | index.js:184 | The device's latest state timestamp is the largest among its state rows, and none when it has no rows. |
| `Persistence.AtLatest` | index.js:181-185 | The `NOT EXISTS` subquery can only find a row when the device has a latest state timestamp. |
| `Persistence.UpdateStateRows` | index.js:178-191 | `updateState` leaves the state table unchanged exactly when a row at the device's latest timestamp carries the pair. Otherwise it appends exactly that row. |
| `Persistence.LatestAfterAppend` | index.js:184 | A device row appended no earlier than its others becomes its latest timestamp. |
| `Persistence.StateIsCurrent` | index.js:178-191 | With samples in time order, after `updateState` the device's latest state row carries the sample's state and alarm. |
| `Persistence.RepeatedStateSkipped` | index.js:179-187 | Two consecutive samples with the same state and alarm leave one state row: the second insert is skipped. |
| `Persistence.FirstStateRecorded` | index.js:179-187 | A device with no state rows always gets one. |
| `Persistence.ChangedStateRecorded` | index.js:179-187 | A state/alarm pair that no row at the device's latest timestamp carries is appended. |
| `Persistence.AfterResolve` | index.js:193-199 | The three statements after resolution keep the id counter, the device count and every row's id and serial. They append one datapoint row, and append at most one state row. |
| `Persistence.Persist` | index.js:112-209 | `storeDatabase` reports no configuration exactly without settings. It stores exactly when configured and resolution succeeds, and then appends one datapoint row; in every other case no table changes. |
| `Persistence.PersistWritesNothingUnresolved` | index.js:112-116 | Without database settings, or when the device cannot be resolved, no table changes and nothing is stored. |
| `Persistence.PersistEffects` | index.js:193-199 | Once resolved, whatever the timestamp, the device of the serial gets the sample's statistics and exactly one datapoint row is appended. When the sample is no older than the device's state rows, the latest state row carries the sample's state and alarm. |
| `Persistence.AfterResolvePreservesValid` | index.js:164-191 | The statements after resolution of a known device keep the tables valid. |
| `Persistence.PersistPreservesValid` | index.js:112-209 | Storing keeps the tables valid: unique ids and serials, and every datapoint and state row refers to a device. |
| `Persistence.Database.FindDeviceId` | index.js:137-162 | Returns the resolved id and leaves the tables as resolution gives them. On a rejection the tables are unchanged. |
| `Persistence.Database.UpdateDeviceStats` | index.js:164-169 | Only the device rows change, as `WithStats`. |
| `Persistence.Database.InsertDataRow` | index.js:171-176 | Only the datapoint table changes, by one appended row: the device id and the sample's eleven values. |
| `Persistence.Database.UpdateState` | index.js:178-191 | Only the state table changes, by the conditional insert. |
| `Persistence.Database.StoreDatabase` | index.js:112-209 | The statements run in order: resolve, then stats, datapoint and state. The result is exactly `Persist`'s tables and outcome. |
| `Adapter.OnData` | index.js:12-15 | The sample is cached and stored exactly when change detection answers yes. Otherwise neither the database nor the cache changes. |
| `Adapter.SecondDeliveryIgnored` | index.js:12-15 | The same sample delivered twice in a row is stored at most once. |

## Left out

- IEEE-754 decoding (`readFloatLE`, `toFixed`, pluggit.js:157-168). Fans and temperatures are integers produced by the `FloatFixed` parameter.
- `parseFloat` subtraction in `distance` (index.js:48-50) is exact integer arithmetic here. JavaScript's float subtraction can land on either side of the 0.1 boundary.
- Modbus and the event wiring (pluggit.js:3-72) are replaced by the `Device` function:
  - the client, its socket timeout and `createClient`/`end`;
  - the `EventEmitter` with its `start`, `data`, `error` and `stop` events.
- A failed poll is the `Failure` result. The events signalled alongside it are not modelled.
- The `default` branch of `requestBlock` (an index past 9) cannot be reached from `start`.
- Pluggit.RequestBlocks: takes the value of `Timestamp.now()` as the parameter `stamp` instead of reading the clock when block 9 is reached.
- `Timestamp.now`'s clock read: its calendar fields are an input.
- `parseSeconds` and the `Date` constructor (timestamp.js:25, 28-30): local time zone, DST and field normalisation. The `Seconds` parameter stands for them.
- Timestamp.ParseDate: computed with integer division on a non-negative integer. This agrees with the source's float division plus `Math.trunc` only while values stay within 2^53.
- The MySQL connection, `USE`, query formatting, escaping and collation (so state comparison is exact string equality), and callback handling.
- A rejected `storeDatabase` (index.js:200-204, `reject(err); throw err`) is the `Rejected` outcome. The `'data'` handler (index.js:13-14) leaves that rejection unhandled, and what the process then does is not modelled.
- Errors of the UPDATE and the two INSERT statements that follow resolution. The code attaches no callback to them, and they are modelled as succeeding.
- A failed connection is represented only as a failing device lookup.
- `SELECT ... results[0]`: SQL gives no row order. The model takes the first matching row in insertion order. Under `Valid` there is at most one.
- Ownership of ids: auto-increment ids are a counter in the tables.
- Concurrency: polls and `'data'` handlers are modelled one at a time.
  - `setInterval` (index.js:31-33) starts a new `Pluggit.fetch()` without waiting for the previous one, and overlapping polls share the module-level `client` of pluggit.js.
  - The async `'data'` handler (index.js:12-14) is not awaited, so two `storeDatabase` calls can interleave their device SELECT and INSERT (index.js:139-158). Both can then insert the same new serial.
  - Persistence.ResolveIdempotent: "no serial gets a second row" holds only for resolutions in sequence.
- Timers, `setInterval`, `SIGINT`/`SIGTERM`, `stop()` and `process.exit`, including `if(!interval) stop()` after a sample (index.js:16-46).
- File handling in utils/datastore.js is not modelled:
  - `readFileSync`, `JSON.parse`, `writeFileSync`/`flush` and their logged errors;
  - `watchFile` (utils/datastore.js:24-30), which compares with `this.lastRead`, a property that is never set at module scope, so that reload never fires;
  - a file whose JSON is not an object.
- The JSON round trip of cached samples is not modelled. The fans and temperatures are strings from the start, because `toFixed` returns a string (pluggit.js:157-168); `distance` reads them back with `parseFloat`. The model keeps them as the integers those strings denote.
- UTF-8 decoding of the name: the name is its bytes.
- pluggit-config.js: an interactive wizard that writes the settings file.
- Logging throughout.

## Findings

| source | as written | input that shows it | evidently intended | confidence | as-written member | corrected member |
|---|---|---|---|---|---|---|
| pluggit.js:149 | `readUInt32LE(4) + (readUInt32LE(8) << 32)`. JavaScript masks the shift count to 5 bits, so `<< 32` shifts by nothing. The high word is added as a signed 32-bit value. | Block 0 with only register 2 (bytes 4-5) set to 1, and block 0 with only register 4 (bytes 8-9) set to 1, both give serial 1. | The low word plus the high word times 2^32, so distinct serial-number registers give distinct serials. | not executed | `Pluggit.SerialAsWrittenCollides` | `Pluggit.SerialWords` |

The decoder `Pluggit.DecodeIdentity`, and so the poll, the cache key and the devices table, use the serial as the code computes it (`Pluggit.SerialAsWritten`). `Pluggit.Serial` is the corrected definition, and `Pluggit.SerialWords` proves that it tells distinct serial-number registers apart.

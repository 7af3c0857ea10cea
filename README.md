# Wensn WS1381 sound-level poller, modelled in Dafny

`wensn_to_influxdb_connection.py` polls a Wensn WS1381 sound-level meter over USB once a
second. It writes the loudest reading of every 31 to an InfluxDB time series. This project
models the parts of that program that compute something, and proves what they promise:

- **Mode codec** (`mode_codec.dfy`, with the name tables in `tables.dfy`). `readMode` decodes the
  one-byte reply to request 2 into the names of the active range, weighting, speed and
  max-hold mode. `setMode` packs four names into the `wvalue` word of request 3.
- **Level decoder** (`spl_decoder.dfy`). `readSPL` decodes the two-byte reply to request 4
  into a level and the active range, weighting and speed. It also raises the module-level
  `peak`. The level is kept in integer tenths of a decibel: raw value `r` stands for
  `r * 0.1 + 30` dB and is modelled as `r + 300` tenths.
- **Aggregation window** (`peak_window.dfy`). The `__main__` loop keeps a counter `i` and a
  candidate `oldData`. On every 31st reading it writes the candidate. `written`, a list of the
  records handed to the database, stands in for `writeToInfluxdb`.
- **Polling loop** (`polling_loop.dfy`). One pass of the loop, and the loop run over a finite
  list of replies up to the first fault.

Python's `&`, `|`, `<<` and `>>` on non-negative ints are written out arithmetically in
`bits.dfy`. Every contract about a bit field of a reply or of the mode word is stated
through one reference, `Field(x, lo, width)`, the `width` bits of `x` from bit `lo`. The
operator functions and the packing lemmas are stated arithmetically (bounds, inverses and
sums), and `ModeCodec.PackedFieldsAt` connects the packed sum to the fields. The reply bytes are parameters: each USB transfer is
replaced by the bytes it returned. Python exceptions are `Result` values. `IndexError` comes
from a short reply or from range code 7. `ValueError(name)` comes from `list.index`.

Where the code's comments disagree with the code, the model follows the code:

- The comment on the range mask in `readMode` (line 52) says bits 1, 2, 3. The mask `7`
  reads bits 0-2, and that is what is modelled.
- The comment before `setMode(dev)` in `__main__` (line 118) says "A" weighting. The default
  argument is "C", so the start-up word is 24 (`ModeCodec.DefaultModeWord`).
- A range outside the first four is not silently truncated to two bits by `setMode`.
  `ranges[0:4].index(range)` raises ValueError first. The `& 3` on `rangeN` never changes
  anything, as `ModeCodec.SetMode`'s contract shows.

## Model

| member | source | states |
|---|---|---|
| Bits.BitAnd | wensn_to_influxdb_connection.py:52-55 | Python `x & y` on non-negative ints is at most either operand. Its full meaning on masks is given by Bits.MaskShift. |
| Bits.BitOr | wensn_to_influxdb_connection.py:71 | Python's bitwise or on non-negative ints is at least either operand and at most their sum. |
| Bits.Shl | wensn_to_influxdb_connection.py:71 | Python `x << k`: shifting the result back right by `k` gives `x`. |
| Bits.Shr | wensn_to_influxdb_connection.py:53-55 | Python `x >> k` is the floor of `x / 2^k`: `r * 2^k <= x < (r + 1) * 2^k`. |
| Bits.Mask | wensn_to_influxdb_connection.py:52-55 | The mask of `width` ones at bit `lo` reads, as the field at `lo`, all ones. |
| Tables.IndexOf | wensn_to_influxdb_connection.py:61-66 | `list.index` succeeds exactly when the name is in the table. It then gives the first position holding it. Otherwise it raises ValueError carrying that name. |
| Tables.IndexOfDistinct | wensn_to_influxdb_connection.py:29-32 | In a table without repeated names, `index` inverts subscripting. |
| Tables.TablesDistinct | wensn_to_influxdb_connection.py:29-32 | The four name tables, and the settable first four ranges, repeat no name. |
| Bits.MaskShift | wensn_to_influxdb_connection.py:52-55 | `(x & mask) >> lo` is exactly the bit field the mask covers. |
| Bits.OrDisjoint | wensn_to_influxdb_connection.py:71 | Bitwise or of values whose bits do not overlap is their sum. |
| ModeCodec.ModeMasks | wensn_to_influxdb_connection.py:52-55 | `readMode`'s masks and shifts read range from bits 0-2, weighting from bit 3, speed from bit 4 and max-hold from bit 5. |
| ModeCodec.ReadMode | wensn_to_influxdb_connection.py:47-58 | Decoding succeeds exactly when the reply has a byte and its range code is not 7. The names are the table entries at those bit fields. An empty reply or range code 7 raises IndexError. |
| ModeCodec.ReadModeIgnoresHighBits | wensn_to_influxdb_connection.py:47-58 | Bits 6-7 of the mode byte and any further bytes do not affect the decoding. |
| ModeCodec.PackFields | wensn_to_influxdb_connection.py:71 | The `wvalue` expression, on field values that fit their masks, equals `range + 8*weight + 16*speed + 32*maxMode`. |
| ModeCodec.SetMode | wensn_to_influxdb_connection.py:60-74 | `wvalue` is produced exactly when the range is one of the first four and the other names are listed. Otherwise ValueError names the first missing argument, checked in the order range, speed, weight, max-hold. A produced word is below 64 with bit 2 clear. Each of its fields indexes back to the argument's name. |
| ModeCodec.SetModeFieldsAreIndexes | wensn_to_influxdb_connection.py:61-71 | Each field of a produced word is the `index` of its argument in its table: range in the first four ranges, speed, weighting and max-hold in theirs. |
| ModeCodec.SetModeRoundTrip | wensn_to_influxdb_connection.py:47-74 | Reading back a word `setMode` produced gives back the four names it was given. |
| ModeCodec.ReadModeReencode | wensn_to_influxdb_connection.py:47-74 | Re-encoding the names decoded from a mode byte gives back bits 0-5 of that byte when the range is settable. For ranges 4-6 it raises ValueError for that range. |
| ModeCodec.DefaultModeWord | wensn_to_influxdb_connection.py:60-74 | The default arguments (30-80, slow, C, instant) encode to 24, which reads back as those names. |
| SplDecoder.LevelMasks | wensn_to_influxdb_connection.py:84-89 | `readSPL`'s masks and shifts read the level's high bits from bits 0-1, range from bits 2-4, weighting from bit 5 and speed from bit 6 of the second byte. |
| SplDecoder.Level | wensn_to_influxdb_connection.py:89 | The level in tenths is `300 + byte0 + 256 * (bits 0-1 of byte1)`, always within 300..1323 (30.0 to 132.3 dB). |
| SplDecoder.LevelDeterminedByRaw | wensn_to_influxdb_connection.py:89 | Two replies give the same level exactly when byte 0 and bits 0-1 of byte 1 agree. |
| SplDecoder.LevelCoversRange | wensn_to_influxdb_connection.py:89 | Every level in 300..1323 tenths is produced by some reply. |
| SplDecoder.DecodeSpl | wensn_to_influxdb_connection.py:77-92 | Decoding succeeds exactly when the reply has two bytes and range code (bits 2-4) is not 7. It then gives the level, range, weighting (bit 5) and speed (bit 6). Otherwise it raises IndexError. |
| SplDecoder.DecodeSplIgnoresBit7 | wensn_to_influxdb_connection.py:84-87 | Bit 7 of the second byte and any further bytes do not affect the reading. |
| SplDecoder.SameFieldsSameSample | wensn_to_influxdb_connection.py:84-92 | Two replies whose first bytes and level, range, weighting and speed fields agree give the same reading. |
| SplDecoder.Meter.constructor | wensn_to_influxdb_connection.py:76 | `peak` starts at 0. |
| SplDecoder.Meter.ReadSpl | wensn_to_influxdb_connection.py:76-92 | The result is DecodeSpl's. `peak` becomes the larger of its old value and the reply's level whenever the reply holds a level, even if the range code then faults. Otherwise it is left alone. `peak` never decreases. |
| PeakWindow.Kept | wensn_to_influxdb_connection.py:125-129 | The candidate of a window is as loud as every reading in it, and strictly louder than every earlier one. It is the first loudest reading, so a tie keeps the earlier candidate. |
| PeakWindow.KeptUnique | wensn_to_influxdb_connection.py:125-129 | Those two properties single out the candidate's position. |
| PeakWindow.FlushedSnoc | wensn_to_influxdb_connection.py:125-129 | One more reading replaces the candidate exactly when it is strictly louder. |
| PeakWindow.Window.constructor | wensn_to_influxdb_connection.py:120 | The loop starts with `i = 0`, no readings and nothing written. |
| PeakWindow.Window.Step | wensn_to_influxdb_connection.py:125-133 | One pass appends the reading to the readings and keeps `i` within 0..30. `i` advances, and wraps to 0 on the 31st reading. A record is written only on that reading, and the record written is the candidate of the 31 readings just completed. |
| PeakWindow.Window.Counts | wensn_to_influxdb_connection.py:130-132 | Exactly one record has been written per 31 readings, and `i` counts the readings since the last one. |
| PeakWindow.Window.WrittenAreWindowPeaks | wensn_to_influxdb_connection.py:125-133 | Record k is the candidate (first loudest reading) of readings 31k through 31k+30. |
| PollingLoop.RecordFromReply | wensn_to_influxdb_connection.py:123-124 | The record built from a reply that decodes is measurement "sound", the fixed location, the range named by bits 2-4 and the speed named by bit 6 of byte 1, and the level in tenths. The weighting has no place in it. |
| PollingLoop.PeakOfIsMax | wensn_to_influxdb_connection.py:76-92 | After a run of readings, `peak` is the largest of its starting value and every level read. It is at least each of them and equal to one of them. |
| PollingLoop.RecordsOf | wensn_to_influxdb_connection.py:123-124 | The records of a run of replies are, position by position, the `SensorData` built from each decoded reply. |
| PollingLoop.PollOnce | wensn_to_influxdb_connection.py:123-133 | One pass: `peak` is updated as `readSPL` does. On success the window is given the record built from the reading. On a fault nothing reaches the window and the fault is returned. |
| PollingLoop.Run | wensn_to_influxdb_connection.py:121-133 | Replies are read in order until the first fault, which is returned with the count read. The window has been given the records of every reply before it. `peak` is the fold of every reply read, the faulting one included. |

## Left out

- USB transport: `connect`, `readBRequest` and the `ctrl_transfer` calls. A reply is the list of bytes the transfer returned, and the bytes `setMode` sends are its result.
- InfluxDB: the client, `initInfluxdbDatabase` and `writeToInfluxdb`. A write is an append to `written`.
- `print`, `time.sleep` and the endlessness of `while True`: `PollingLoop.Run` covers any finite prefix of the loop.
- Floating point: levels are exact tenths of a dB. `raw * 0.1 + 30` rounds in Python, but for raw values 0..1023 the rounding keeps distinct raw values distinct and in order. Comparisons against `peak` and between readings therefore agree with the tenths.
- `SensorData.value` is annotated `str` in the source but holds the float level. The model stores the tenths as an integer.
- The weighting returned by `readSPL` is not stored in the record, as in the source.
- Before the first reading `oldData` is unbound in Python, and reading it would raise NameError. The model stands in `None` for it, and the loop never reads it then.

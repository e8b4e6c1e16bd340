# Liontron BMS telemetry, modelled and verified in Dafny

This project models the telemetry path of a Liontron LiFePO4 battery read over Bluetooth LE
and published to Home Assistant over MQTT:

- **The session retry engine** of `Battery.__getBMSData` (`session.dfy`). It makes up to ten
  `connect` attempts and returns `-1` when all of them time out. It then runs three exchanges
  in a fixed order: status, cells, name. Each exchange gets up to ten attempts and clears its
  buffer at the start of every attempt. The status exchange waits for two notifications. The
  session ends with `disconnect` and `exit`. The interactive gatttool process is replaced by a
  `Transport` oracle, which fixes for every attempt whether the awaited prompt arrived and with
  which text.
- **The frame decoder of `liontron_battery.py`** (`liontron.dfy`, with `wire.dfy`,
  `dict.dfy` and `frames.dfy`).
  - Each buffer loses its last character and is parsed as hex pairs.
  - A frame counts only when it starts with `DD 03`, `DD 04` or `DD 05` and ends with `0x77`.
  - The status fields are big-endian reads from `frame[4:]`. The state of charge is
    `payload[19]`, which raises IndexError on a short frame.
  - The cells are unsigned 16-bit words from `frame[4:-3]`. The name is that body decoded as
    ASCII, which raises UnicodeDecodeError on a byte of 0x80 or above.
  - Values are filled into an insertion-ordered dict, `rawdat`, key by key.
  - `getBatteryload` returns the error dict on `-1`, otherwise the decoded dict.
- **The protection-state classifier** (`protection.dfy`). It reads `format(word, '016b')` and
  looks only at positions 0..12.
  - `liontron_battery.py` uses an `if`/`elif` chain, so the lowest set position wins.
  - `battery.py` uses thirteen sequential `if`s that overwrite one another, so the highest
    set position wins.
- **The older decoder in `battery.py`** (`legacy.dfy`).
  - The cycle count and the cells are read signed.
  - Every field is a slice, so a short status frame decodes with a state of charge of 0.
  - The dict goes through `data.json`, and `getBatteryload` returns `-1` or the `SoC` value.
- **The MQTT publisher** (`publisher.dfy`).
  - Topic construction.
  - The ordered unit-inference rule.
  - `build_discovery_payload`.
  - `publish_all`: the state message first, then one retained discovery config per key other
    than `ProtectState` and `Name`.
  - The per-battery loop of `main`: each battery gets a fresh `Battery`; a failure is logged
    and does not affect the other batteries.

The code is imperative where the source is: the retry loops, the dict filled key by key, the
overwriting classifier of `battery.py`, the publish loop and the polling loop. Each of those is
a method proved against a function. The field reads, the classifiers, the payload builder and
the unit rule are functions, and lemmas relate them. Python's integers are unbounded as in
Dafny. Floats are kept exact as `real` values, for example `Centi(raw)` satisfies
`Centi(raw) * 100 == raw`.

Labels are spelled as assigned at liontron_battery.py:118-144 (`CellBlockUnderVol`,
`BatteryOverVol`, ...). The word 0x0003 sets only the unexamined positions 14 and 15, so both
classifiers say `ok` (`Protection.ReservedOnlyWord`).

## Model

| member | source | states |
|---|---|---|
| Session.ConnectLoop | liontron_battery.py:22-35 | It connects iff one of the ten attempts succeeds. On success it has sent `connect` once per attempt up to and including the first success. On failure it has sent ten `connect` lines and then `exit`. |
| Session.StatusExchange | liontron_battery.py:38-53 | It sends one request per attempt up to the first attempt that receives both notifications, or ten requests. The buffer ends as the two texts of that attempt, or empty. |
| Session.Exchange | liontron_battery.py:55-83 | For the cell and name exchanges: one request per attempt up to the first answered attempt, or ten. The buffer ends as that answer's text, or empty. |
| Session.RunSession | liontron_battery.py:19-87 | It returns `None` (the `-1`) exactly when the connect loop gives up, and otherwise the three buffers. The lines sent are the connect lines, then the three exchanges in order, then `disconnect` and `exit`. |
| Session.SessionLines | liontron_battery.py:19-87 | The lines the session sends: the connect lines, then each exchange's requests, then `disconnect` and `exit`; or ten connects and `exit`. Its properties are in `ConnectGivesUp`, `ConnectStopsAtFirstSuccess` and `ConnectedSessionOrder`. |
| Session.FirstConnected | liontron_battery.py:22-31 | The result is the first successful connect attempt at or after `from` and below ten, with every earlier attempt failing. `None` means none of them succeeded. |
| Session.FirstComplete | liontron_battery.py:38-51 | The result is the first status attempt that receives both notifications, with none before it doing so. |
| Session.FirstNotified | liontron_battery.py:56-66 | The result is the first answered attempt of a one-notification exchange, with every earlier attempt timing out. |
| Session.AttemptsBounded | liontron_battery.py:22 | Every loop makes between one and ten attempts. |
| Session.ConnectGivesUp | liontron_battery.py:22-35 | The session gives up iff all ten connect attempts time out. It has then sent exactly ten `connect` lines and `exit`, and no request. |
| Session.ConnectStopsAtFirstSuccess | liontron_battery.py:22-41 | When attempt `i` is the first success, the lines sent begin with `i + 1` connects and the status request comes next. |
| Session.SessionHead | liontron_battery.py:22-87 | In a line sequence of the session's shape, the status request directly follows the connects. |
| Session.FirstConnectedIs | liontron_battery.py:22-31 | An attempt that succeeds after only failures is the one the connect loop stops at. |
| Session.ConnectedSessionOrder | liontron_battery.py:22-87 | A connected session sends at most 42 lines and ends with `disconnect`, `exit`. Its lines go through connect, status, cells, name and close in that order, never back. |
| Session.StagesOfSession | liontron_battery.py:22-87 | The stages of a line sequence of the session's shape never decrease, and its last two lines are `disconnect`, `exit`. |
| Session.PartialStatusDiscarded | liontron_battery.py:38-49 | Changing a status attempt that did not complete into any other incomplete attempt leaves the status buffer unchanged. A first notification without the second leaves no trace. |
| Session.FirstCompleteSame | liontron_battery.py:38-51 | Two channels whose status attempts complete at the same indices stop at the same attempt. |
| Session.StatusExhausted | liontron_battery.py:52-53 | Ten status attempts without both notifications leave the status buffer empty. |
| Session.ReplyIsFirstAnswer | liontron_battery.py:56-68 | A one-notification exchange keeps exactly the text of its first answered attempt. |
| Session.FirstNotifiedIs | liontron_battery.py:56-66 | An answered attempt preceded only by timeouts is the one the exchange stops at. |
| Wire.Slice | liontron_battery.py:102 | Python slicing: within bounds it is the plain subsequence, and it is never longer than its input. |
| Wire.TrimmedLength | liontron_battery.py:148 | `s[4:-3]` keeps `len(s) - 7` elements, or none for a shorter `s`. |
| Wire.DropLast | liontron_battery.py:90-92 | `s[:-1]` drops the last element and leaves an empty input empty. |
| Wire.Unsigned | liontron_battery.py:108 | `int.from_bytes(..., 'big')` is below `256^len`. |
| Wire.Signed | liontron_battery.py:104-107 | The signed read lies in the two's-complement range and is 0 for an empty slice. It equals the unsigned read iff the leading bit is clear. |
| Wire.SignBit | liontron_battery.py:104-108 | The leading byte is below 128 iff the unsigned read is in the lower half of its range. |
| Wire.LeadingByte | liontron_battery.py:104-108 | A big-endian read is its leading byte times `256^(len-1)` plus the read of the rest. |
| Wire.TwoBytes | liontron_battery.py:104-113 | A two-byte read is `hi * 256 + lo` unsigned, and signed it is that value minus 0x10000 when the high bit is set. |
| Wire.SignedDiffersFromUnsigned | battery.py:121 | A signed and an unsigned two-byte read differ exactly when the raw word is at least 0x8000. They then differ by 0x10000. |
| Wire.Be16 | liontron_battery.py:104-113 | Writing a 16-bit field, signed or unsigned, takes exactly two bytes. |
| Wire.Be16RoundTrip | liontron_battery.py:104-113 | Reading back a written field gives the value: unsigned on 0..0xFFFF, signed on -0x8000..0x7FFF. |
| Wire.HexValue | liontron_battery.py:94-96 | A hex digit's value is below 16. |
| Wire.FromHex | liontron_battery.py:94-96 | Parsing never yields more bytes than half the text's length, and the empty text parses to no bytes. |
| Wire.HexDigit | liontron_battery.py:94-96 | Each digit gatttool prints parses back to its value and is not whitespace. |
| Wire.NotificationText | liontron_battery.py:42-47 | A notification prints three characters per byte and ends in a space. |
| Wire.NotificationTextAppend | liontron_battery.py:42-47 | The two status notifications appended print as the notification of their concatenated bytes. |
| Wire.NotificationRoundTrip | liontron_battery.py:90-96 | Dropping the last character and parsing the hex of a notification gives back its bytes. |
| Wire.AsciiDecode | liontron_battery.py:155 | ASCII decoding succeeds iff every byte is below 128, and then maps each byte to the character with that code. |
| Strings.DigitChar | liontron_battery.py:150 | A decimal digit prints as a character `0`..`9` whose digit value is that digit. |
| Strings.DecimalValue | liontron_battery.py:150 | The number a digit string denotes, folded left to right; the reference `NatToStringValue` is stated against. |
| Strings.NatToString | liontron_battery.py:150 | `str(n)` is a non-empty string of digits, one digit long iff `n < 10`. |
| Strings.NatToStringValue | liontron_battery.py:150 | `str(n)` is the decimal numeral of `n`: its digits, read left to right, denote `n`. |
| Strings.NatToStringLeading | liontron_battery.py:150 | `str(n)` starts with `0` iff `n` is 0, so there is no leading zero. |
| Strings.NatToStringTwelve | liontron_battery.py:150 | `str(12)` is `"12"`, so the twelfth cell is `Vcell12`. |
| Strings.NatToStringInjective | liontron_battery.py:150 | Different cell numbers print differently. |
| Strings.ContainsAt | mqtt_liontron_publisher.py:96-103 | An occurrence at any index makes `sub in s` true. |
| Strings.MissingCharNotContained | mqtt_liontron_publisher.py:96-103 | A string that lacks one of the characters of `sub` does not contain `sub`. |
| Strings.LowerChar | mqtt_liontron_publisher.py:166 | `str.lower()` on one character maps an upper-case letter to the lower-case letter at the same alphabet position and leaves every other character as it is. |
| Strings.StripColonsLower | mqtt_liontron_publisher.py:166 | `mac.replace(":", "").lower()` has no colon, no upper-case letter, and is no longer than the MAC. |
| Strings.StripColonsLowerChar | mqtt_liontron_publisher.py:166 | On one character it drops a colon and lower-cases anything else. |
| Strings.StripColonsLowerAppend | mqtt_liontron_publisher.py:166 | It distributes over concatenation, so the result is the MAC's non-colon characters, in order, lower-cased. |
| Strings.StripColonsLowerMac | liontron_battery.py:186 | `A4:AA:BB:CC:DD:EE` becomes `a4aabbccddee`. |
| Dict.Keys | liontron_battery.py:98-155 | The keys of a dict, in insertion order. |
| Dict.KeysAppend | liontron_battery.py:98-155 | Appending entries appends their keys. |
| Dict.Get | mqtt_liontron_publisher.py:166 | `d.get(k)` is `None` iff `k` is not a key. In a dict with distinct keys it is the value stored under `k`. |
| Dict.GetAppend | liontron_battery.py:98-155 | A lookup in appended entries sees the earlier part first. |
| Dict.Assign | liontron_battery.py:104-155 | `d[k] = v`: replaces the value of an existing key in place, otherwise appends the entry; its properties are in `AssignNew`, `AssignExisting`, `AssignLookup` and `AssignKeepsDistinct`. |
| Dict.AssignNew | liontron_battery.py:104 | `d[k] = v` for a new key appends the entry at the end. |
| Dict.AssignLast | battery.py:128-155 | Assigning again the key appended last replaces its value in place. |
| Dict.AssignExisting | battery.py:128-155 | Assigning an existing key keeps every position and changes only that key's value. |
| Dict.AssignKeepsDistinct | liontron_battery.py:98-155 | Assignment keeps the keys distinct. |
| Dict.AssignLookup | liontron_battery.py:98-155 | After `d[k] = v`, `k` reads `v` and every other key reads what it read before. |
| Dict.AssignLookupNew | liontron_battery.py:98-155 | The same, for a key that was absent. |
| Dict.AssignLookupExisting | liontron_battery.py:98-155 | The same, for a key that was present. |
| Dict.GetUnchanged | liontron_battery.py:98-155 | Dicts with the same keys in the same places agree on a key whose entry they share. |
| Dict.DistinctAppend | liontron_battery.py:98-155 | Two dicts with distinct and disjoint keys join into one with distinct keys. |
| Protection.Bits | liontron_battery.py:110 | The binary string has the requested width and only `0`/`1`. |
| Protection.Format016b | liontron_battery.py:110 | `format(w, '016b')` of a 16-bit word is a 16-character binary string. |
| Protection.TextInjective | liontron_battery.py:117-144 | The fourteen labels are spelled differently from one another. |
| Protection.FaultAt | liontron_battery.py:119-144 | Each examined position carries a fault label, never `ok`. |
| Protection.Position | liontron_battery.py:119-144 | Each fault label belongs to exactly one examined position, the inverse of `FaultAt`. |
| Protection.FaultAtInjective | liontron_battery.py:119-144 | Distinct positions carry distinct labels. |
| Protection.ClassifyFirst | liontron_battery.py:116-144 | The label is `ok` iff none of positions 0..12 is `1`. Otherwise it is the label of the lowest set position. |
| Protection.HighestSetBelow | battery.py:130-155 | The result is the highest set position below `n`, or none iff no position below `n` is set. |
| Protection.ClassifyLast | battery.py:128-155 | The label is `ok` iff none of positions 0..12 is `1`. Otherwise it is the label of the highest set position. |
| Protection.CountSetBelow | battery.py:128-155 | The number of set positions below `n` is at most `n`. |
| Protection.CountZero | battery.py:128-155 | The count is zero iff no position below `n` is set. |
| Protection.CountAboveHighest | battery.py:128-155 | The count up to the highest set position is one more than the count below it. |
| Protection.ClassifiersAgreeIffAtMostOneFault | battery.py:128-155 | The two classifiers agree on a string iff at most one of positions 0..12 is set. |
| Protection.LowestExists | liontron_battery.py:117-144 | When some examined position is set, there is a lowest one. |
| Protection.ExaminedPrefix | liontron_battery.py:110-117 | The first 13 characters of `format(w, '016b')` are the binary of `w // 8`. |
| Protection.BitsZero | liontron_battery.py:117 | An `n`-bit string has no `1` iff the value is zero. |
| Protection.LeadingZeros | liontron_battery.py:110 | A value below `2^k` has only zeros before its last `k` characters. |
| Protection.NormalIffOnlyReservedBits | liontron_battery.py:117-118 | Both classifiers say `ok` iff the word is below 8, that is, iff only the reserved positions 13..15 may be set. |
| Protection.HighestSetSamePrefix | battery.py:130-155 | The highest set position below `n` depends only on the first `n` characters. |
| Protection.ClassifiersReadOnlyExamined | liontron_battery.py:117-144 | Strings that agree on positions 0..12 get the same label from each classifier. |
| Protection.ReservedBitsIgnored | liontron_battery.py:117-144 | Clearing the three least significant bits of the word never changes either label. |
| Protection.BitAt | liontron_battery.py:110 | Character `i` of the `n`-bit string is bit `n-1-i` of the value. |
| Protection.PositionIsBit | liontron_battery.py:110 | Position `p` of `format(w, '016b')` holds bit `15 - p` of the word. |
| Protection.ExaminedChars | liontron_battery.py:110-117 | The examined characters of the word's string are those of the 13-bit string of `w // 8`. |
| Protection.ReservedOnlyWord | liontron_battery.py:117-118 | The word 0x0003 sets only positions 14 and 15, and both classifiers say `ok`. |
| Protection.TwoFaultWord | battery.py:152-155 | The word 0x0018 sets positions 11 and 12. `liontron_battery.py` reports `ForeEndICError`; `battery.py` reports `MOSSoftwareLockIn`. |
| Protection.SingleFaultWord | liontron_battery.py:143-144 | The word 0x0008 sets position 12 alone, and both classifiers report `MOSSoftwareLockIn`. |
| Protection.ExaminedLabels | battery.py:128-155 | With exactly positions `lo <= hi` set, the first-match classifier reports `lo` and the last-match one reports `hi`. |
| Frames.Accepted | liontron_battery.py:101-153 | A buffer counts when it ends with `0x77` and starts with `0xDD` and the frame's code; `StatusKeysIffAccepted`, `CellKeysIffAccepted` and `NameIffAccepted` show each block depends on it. |
| Frames.Centi | liontron_battery.py:104-107 | `raw / 100.0` kept exact: the value times 100 is the raw count. |
| Frames.Milli | liontron_battery.py:150 | `raw / 1000.0` kept exact. |
| Frames.Celsius | liontron_battery.py:112-113 | `(raw - 2731) / 10.0`: the value plus 273.1 is the raw decikelvin over ten. |
| Frames.CellKey | liontron_battery.py:150 | `f'Vcell{n}'` starts with `Vc` and has at least six characters. |
| Frames.CellKeyInjective | liontron_battery.py:150 | Different cell numbers give different keys. |
| Frames.CellKeyFresh | liontron_battery.py:150 | No cell key is a status key, `Name` or `error`. |
| Frames.StatusValues | liontron_battery.py:104-144 | There is one value per status key. |
| Frames.StatusEntries | liontron_battery.py:104-144 | The eleven status entries pair each status key, in assignment order, with its value. |
| Frames.CellEntries | liontron_battery.py:149-150 | There is one `Vcell<i+1>` entry per reading, in order, each holding the reading in volts. |
| Frames.CellEntriesAppend | liontron_battery.py:149-150 | One more reading appends one more entry. |
| Frames.StatusKeysDistinct | liontron_battery.py:104-144 | The eleven status keys are pairwise different. |
| Frames.StatusEntriesDistinct | liontron_battery.py:104-144 | The status entries have distinct keys. |
| Frames.CellKeysDistinct | liontron_battery.py:149-150 | The cell entries have distinct keys. |
| Frames.StatusOnly | liontron_battery.py:98-155 | With no cells and no name, `rawdat` is just the status part. |
| Frames.StatusStep | liontron_battery.py:104-113 | Assigning the next status key on the entries filled so far appends exactly the next entry. |
| Frames.StatusPartKeys | liontron_battery.py:101-144 | The status part has distinct keys, all of them status keys. |
| Frames.RawdatKeys | liontron_battery.py:98-155 | A decoded `rawdat` never repeats a key and never holds `error`. |
| Frames.StatusPartLacks | liontron_battery.py:101-144 | A key that is not a status key is not in the status part. |
| Frames.CellEntriesLackReserved | liontron_battery.py:149-150 | No cell key is `Name` or `error`. |
| Frames.RawdatStatusLookup | liontron_battery.py:101-144 | A status key holds its status value iff the status frame was accepted, and is absent otherwise. |
| Frames.ReservedKeysNotStatus | liontron_battery.py:104-155 | `Name` and `error` are not status keys. |
| Frames.StatusKeyNotCell | liontron_battery.py:149-150 | No status key is a cell key. |
| Frames.CellKeyAbsent | liontron_battery.py:147-150 | `Vcell0` and cell keys past the count are absent. |
| Frames.CellKeyNotCell | liontron_battery.py:149-150 | The cell entries hold no key numbered past their count, or zero. |
| Frames.RawdatCellLookup | liontron_battery.py:147-150 | `Vcell<n>` holds the n-th reading for `1 <= n <= count`, and is absent otherwise. |
| Frames.RawdatNameLookup | liontron_battery.py:153-155 | `Name` holds the decoded text iff the name frame was accepted. |
| Frames.StatusPayload | liontron_battery.py:102-113 | The payload built from the status fields has 27 bytes. |
| Frames.StatusFrame | liontron_battery.py:101 | A built status frame is accepted and has 34 bytes. |
| Frames.CellWords | liontron_battery.py:148-150 | Built cell words have two bytes per reading. |
| Frames.CellWordsAt | liontron_battery.py:150 | Word `i` of the cell words is reading `i`, big-endian. |
| Frames.CellFrame | liontron_battery.py:147 | A built cell frame is accepted and has `2n + 7` bytes. |
| Frames.NameFrame | liontron_battery.py:153 | A built name frame is accepted and has `len(text) + 7` bytes. |
| Frames.FrameBody | liontron_battery.py:148-154 | `frame[4:-3]` of a built frame is exactly its body. |
| Frames.CellKeyBeyond | liontron_battery.py:149-150 | A cell number past the readings is none of their keys. |
| Frames.AppendCell | liontron_battery.py:150 | Assigning the next `Vcell` key after the status keys appends one entry. |
| Frames.AppendName | liontron_battery.py:155 | Assigning `Name` after the status and cell keys appends it. |
| Liontron.ReadStatus | liontron_battery.py:102-113 | The status read raises IndexError iff the payload is shorter than 20 bytes, because of `payload[19]`. |
| Liontron.ReadCells | liontron_battery.py:148-150 | There is one reading per whole byte pair, each an unsigned 16-bit value. |
| Liontron.StatusRoundTrip | liontron_battery.py:102-113 | Decoding a status frame built from in-range fields gives those fields back. |
| Liontron.CellsRoundTrip | liontron_battery.py:147-150 | Decoding a cell frame built from 16-bit readings gives the readings back, in order. |
| Liontron.OddByteIgnored | liontron_battery.py:149 | A trailing odd byte of the cell payload changes nothing. |
| Liontron.DecodeStatusBlock | liontron_battery.py:101-144 | The status block on an empty dict stores nothing for a frame that is not accepted, and raises IndexError for a short payload. Otherwise it stores the eleven status entries, labelled by `ClassifyFirst`. |
| Liontron.FillReadings | liontron_battery.py:104-109 | The six direct reads are assigned in order and leave the first six status entries. |
| Liontron.FillDerived | liontron_battery.py:110-113 | The binary string, state of charge and temperatures extend them to the first ten entries. |
| Liontron.CellStep | liontron_battery.py:149-150 | One turn of the cell loop appends the entry of the next reading. |
| Liontron.DecodeCellBlock | liontron_battery.py:147-150 | The cell block appends exactly the cell entries of the frame: none unless it is accepted. |
| Liontron.DecodeNameBlock | liontron_battery.py:153-155 | The name block appends `Name` for an accepted ASCII body, raises UnicodeDecodeError for a non-ASCII one, and otherwise changes nothing. |
| Liontron.DecodeResponses | liontron_battery.py:90-155 | The in-place decode of the three buffers computes `Decode`, including ValueError for text that is not hex. |
| Liontron.DecodeFrames | liontron_battery.py:98-155 | The decode of the three parsed buffers: the status part, the cells and the name, or the first exception; characterised by `DecodedParts`, `DecodeFramesErrors` and the `...IffAccepted` lemmas. |
| Liontron.Decode | liontron_battery.py:90-155 | The buffers stripped of their last character and parsed as hex (ValueError otherwise), then decoded; `DecodeResponses` is proved equal to it. |
| Liontron.Load | liontron_battery.py:160-170 | What `getBatteryload` returns: the error dict on a connect give-up, otherwise the decode; see `LoadErrorIffNoConnection`. |
| Liontron.Battery.constructor | liontron_battery.py:15-17 | A new battery holds its MAC and no data. |
| Liontron.Battery.GetBMSData | liontron_battery.py:19-158 | It sends the session's lines. The outcome is `-1` iff the connect loop gives up. A successful decode is stored; an exception stores nothing. |
| Liontron.Battery.GetBatteryload | liontron_battery.py:160-170 | The result is the error dict when the session returns `-1`, otherwise the decoded dict, or the exception. The dict returned is the one stored; otherwise `_raw_data` is unchanged. |
| Liontron.DecodeFramesShape | liontron_battery.py:98-155 | A decoded dict has distinct keys and no `error` key. |
| Liontron.LoadErrorIffNoConnection | liontron_battery.py:167-170 | `getBatteryload` returns the error dict iff the connect loop gave up. |
| Liontron.DecodedParts | liontron_battery.py:98-155 | A successful decode is the status part, then the cell entries, then the name. |
| Liontron.StatusKeysIffAccepted | liontron_battery.py:101-113 | Each status key is present iff the status frame was accepted, and then holds the field read from `frame[4:]`. |
| Liontron.StatusOfAccepted | liontron_battery.py:101-144 | An accepted frame that decodes carries the fields of `frame[4:]` and the first-match label. |
| Liontron.CellKeysIffAccepted | liontron_battery.py:147-150 | `Vcell<n>` is present iff the cell frame was accepted and `1 <= n <= (len - 7) // 2`. It then holds the unsigned word at frame bytes `2n+2..2n+4`, in volts. |
| Liontron.CellsOfAccepted | liontron_battery.py:147-150 | The cell count of an accepted frame is `max(0, len - 7) // 2`, and reading `n` is located at frame bytes `2n+2..2n+4`. |
| Liontron.NameIffAccepted | liontron_battery.py:153-155 | `Name` is present iff the name frame was accepted, and then holds its body as text. |
| Liontron.DecodeFramesErrors | liontron_battery.py:111-155 | Decoding raises exactly for an accepted status frame shorter than 24 bytes (IndexError, checked first) or for an accepted name frame with a non-ASCII byte. |
| Liontron.NameErrIff | liontron_battery.py:153-155 | The name raises iff its frame is accepted and its body holds a byte of 0x80 or above. |
| Liontron.SampleStatusText | battery.py:101-102 | The two quoted status notifications, read back to back and parsed, give their bytes. |
| Liontron.SampleStatusDecodes | battery.py:101-102 | The quoted status reply decodes to 13.20 V, 0 A, 70.90 of 109.91 Ah, 2 cycles, word 0 labelled `ok`, 65 %, and 2932 / 2923 decikelvin. |
| Liontron.SampleStatusFrame | battery.py:101-102 | The same, for the frame given as a parameter. |
| Liontron.SampleStatusBytes | battery.py:101-102 | These are the payload bytes of the quoted reply at the offsets the decoder reads. |
| Liontron.SamplePayload | liontron_battery.py:102-113 | A payload with those bytes reads as the quoted fields. |
| Liontron.SampleWord | liontron_battery.py:104-113 | A two-byte field below 0x8000 reads the same signed and unsigned. |
| Liontron.SampleCellsDecode | battery.py:103 | The quoted cell reply gives four readings: 3301, 3299, 3301 and 3304 mV. |
| Legacy.ReadStatus | battery.py:115-126 | The status read never fails. `SoC` is `payload[19]` when present, else 0, and always a byte. The word is 0 when the payload has at most 16 bytes. |
| Legacy.ReadCells | battery.py:158-161 | There is one reading per whole byte pair, each signed in -0x8000..0x7FFF. |
| Legacy.LabelSoFarComplete | battery.py:128-155 | After all thirteen tests, the stored label is the last-match label. |
| Legacy.TextStep | battery.py:128-155 | Each assignment of `ProtectStateText` appends the entry the first time and replaces it in place afterwards. |
| Legacy.LabelInPlace | battery.py:128-155 | The thirteen overwriting `if`s, run on the first ten entries, leave the full status entries labelled by `ClassifyLast`. |
| Legacy.DecodeStatusBlock | battery.py:114-155 | The status block stores the status part of the frame: nothing unless accepted, otherwise the eleven entries. |
| Legacy.CellStep | battery.py:160-161 | One turn of the cell loop appends the next signed reading. |
| Legacy.DecodeCellBlock | battery.py:157-161 | The cell block appends exactly the signed cell entries of the frame. |
| Legacy.DecodeResponses | battery.py:105-165 | The in-place decode computes `Decode`. |
| Legacy.DecodeFrames | battery.py:113-165 | The decode of the three parsed buffers: status part, signed cells and name, or UnicodeDecodeError; characterised by `DecodedParts`, `StatusKeysIffAccepted` and `SocIffAccepted`. |
| Legacy.Decode | battery.py:105-165 | The buffers stripped and parsed as hex, then decoded; `DecodeResponses` is proved equal to it. |
| Legacy.Load | battery.py:175-191 | What `getBatteryload` returns: `-1`, the `SoC` value read back, or the exception; see `LoadCases`. |
| Legacy.Battery.constructor | battery.py:167-168 | A battery starts from the given `data.json` contents. |
| Legacy.Battery.GetBMSData | battery.py:23-171 | It sends the session's lines, and the outcome is `-1` iff the connect loop gives up. A successful decode is written to `data.json`; otherwise the file is untouched. |
| Legacy.Battery.GetBatteryload | battery.py:167-191 | The result is `-1` on a connect timeout, otherwise `SoC` from the dict read back, KeyError when it is missing, or the decoding exception. Afterwards `data.json` holds the decoded dict when the decode succeeded, and is unchanged otherwise. |
| Legacy.StatusReadsAgree | battery.py:117-126 | On a payload of 20 bytes or more, both files read the same fields except the cycle count, which `battery.py` reads signed. The counts agree iff the raw word is below 0x8000. |
| Legacy.CellsSignedness | battery.py:161 | Both files find the same number of cells. A reading differs iff its raw word is at least 0x8000, and then `battery.py` reports it 0x10000 lower. |
| Legacy.DecodedParts | battery.py:113-165 | The decode succeeds iff the name decodes, and is then the status part, the signed cells and the name. |
| Legacy.StatusKeysIffAccepted | battery.py:114-126 | Each status key is present iff the status frame was accepted, whatever its length, and holds the slice reads of `frame[4:]`. |
| Legacy.SocIffAccepted | battery.py:124 | `SoC` is present iff the status frame was accepted, and then is `payload[19]`, or 0 when the payload ends before it. |
| Legacy.ShortStatusTolerated | battery.py:124 | An accepted status frame shorter than 24 bytes raises IndexError in `liontron_battery.py`. In `battery.py` it decodes with `SoC` 0. |
| Legacy.DecodersAgree | battery.py:113-165 | When the status read of `liontron_battery.py` does not raise, both files give the same result, dict or exception. This holds when the cycle count and every cell word are below 0x8000 and at most one examined flag is set. |
| Legacy.LabelsAgreeIffAtMostOneFault | battery.py:128-155 | On an accepted status frame, the two files' `ProtectStateText` agree iff at most one of positions 0..12 is set. |
| Legacy.LoadCases | battery.py:175-191 | `getBatteryload` returns `-1` iff the connect loop gave up. A returned `SoC` is an integer 0..255. KeyError arises iff the session connects and decodes but its status frame was not accepted, so the dict lacks `SoC`. |
| Legacy.SampleStatusDecodes | battery.py:101-102 | `battery.py` decodes the quoted status reply to the same fields as `liontron_battery.py`. |
| Legacy.SampleStatusFrame | battery.py:101-102 | The same, for the frame given as a parameter. |
| Legacy.SampleCellsDecode | battery.py:103 | The quoted cell reply gives the same four readings signed, since none reaches 0x8000. |
| Publisher.StateTopic | mqtt_liontron_publisher.py:82 | `{base}/{device}/state`; `TopicKindsDistinct` separates it from the other topics. |
| Publisher.AvailabilityTopic | mqtt_liontron_publisher.py:83 | `{base}/status`. |
| Publisher.DiscoveryTopic | mqtt_liontron_publisher.py:92 | `homeassistant/sensor/{device}/{key}/config`; `DiscoveryTopicInjective` shows keys get distinct topics. |
| Publisher.TopicKindsDistinct | mqtt_liontron_publisher.py:82-92 | The state, availability and discovery topics never coincide. |
| Publisher.DiscoveryTopicInjective | mqtt_liontron_publisher.py:92 | Two keys of one device get different discovery topics. |
| Publisher.UnitFor | mqtt_liontron_publisher.py:95-105 | An inferred unit is never the empty string. |
| Publisher.StatusKeyUnits | mqtt_liontron_publisher.py:95-105 | The ordered rule gives `V`, `A`, `Ah`, `Ah`, none, none, none, `%`, `°C`, `°C`, none to the eleven status keys. |
| Publisher.MeasuredKeys | mqtt_liontron_publisher.py:95-105 | This is the rule's unit for the status keys that get one. |
| Publisher.UnitlessKeys | mqtt_liontron_publisher.py:95-105 | `NumberCycles` and `ProtectState` get no unit. |
| Publisher.UnitlessFlagKeys | mqtt_liontron_publisher.py:95-105 | `ProtectStateBin` and `ProtectStateText` get no unit. |
| Publisher.VoltUnit | mqtt_liontron_publisher.py:96-99 | A key starting with `Vmain` and lacking `T` is in volts. |
| Publisher.CurrentUnit | mqtt_liontron_publisher.py:96-101 | A key starting with `Imain` and lacking `T` and `V` is in amperes. |
| Publisher.CapacityUnit | mqtt_liontron_publisher.py:96-103 | A key ending in `Ah` and lacking `T`, `V` and `I` is in ampere-hours. |
| Publisher.ChargeUnit | mqtt_liontron_publisher.py:104-105 | `SoC` is in percent. |
| Publisher.TemperatureUnit | mqtt_liontron_publisher.py:96-97 | A key starting with `Temp` is in degrees Celsius, whatever else it contains. |
| Publisher.NoUnit | mqtt_liontron_publisher.py:95-105 | A key other than `SoC` that lacks some letter of `Temp` and has no `V`, `I` or `A` gets no unit. |
| Publisher.CellKeyUnit | mqtt_liontron_publisher.py:98-99 | Every `Vcell<n>` key is in volts. |
| Publisher.BuildDiscoveryPayload | mqtt_liontron_publisher.py:40-69 | `unique_id` equals `object_id`, which is the device name, `_`, then the key. The template selects the key. The unit is present iff it is given and non-empty, and is then that unit. The device's identifiers are its name. |
| Publisher.UniqueIdsDistinct | mqtt_liontron_publisher.py:63-64 | Two keys of one device never share a `unique_id`. |
| Publisher.PublishedKeys | mqtt_liontron_publisher.py:88-90 | There are never more published keys than dict entries. |
| Publisher.PublishedKeysMembers | mqtt_liontron_publisher.py:88-90 | A key gets a discovery config iff the dict has it and it is not `ProtectState` or `Name`. |
| Publisher.PublishedKeysDistinct | mqtt_liontron_publisher.py:88-90 | The published keys of a dict are pairwise different. |
| Publisher.Discoveries | mqtt_liontron_publisher.py:88-108 | There is one discovery message per published key. |
| Publisher.DiscoveryStep | mqtt_liontron_publisher.py:88-108 | One more dict entry adds its discovery message, unless its key is skipped. |
| Publisher.PublishAllMessages | mqtt_liontron_publisher.py:71-108 | What `publish_all` publishes: the state message, then the discovery messages of the published keys; `PublishAll` is proved to produce it and `PublishAllStateOnce`, `PublishAllAt` and `PublishAllOnePerKey` state its shape. |
| Publisher.Client.constructor | mqtt_liontron_publisher.py:143 | A new client has published nothing. |
| Publisher.Client.Publish | mqtt_liontron_publisher.py:86-108 | `publish` appends one message, keeping earlier ones. |
| Publisher.Announce | mqtt_liontron_publisher.py:92-108 | One loop turn for a kept key publishes its retained discovery config with the inferred unit. |
| Publisher.PublishAll | mqtt_liontron_publisher.py:71-108 | `publish_all` appends the state message and then a discovery config per published key, in dict order. |
| Publisher.PublishAllAt | mqtt_liontron_publisher.py:88-108 | Message `j >= 1` is the discovery config of the `j`-th published key. |
| Publisher.PublishAllStateOnce | mqtt_liontron_publisher.py:82-108 | The state goes out first with the caller's retain flag. Every later message is a retained config on another topic. |
| Publisher.PublishAllOnePerKey | mqtt_liontron_publisher.py:88-108 | A key gets a discovery message iff it is in the dict and not skipped, and then exactly one. |
| Publisher.DeviceName | mqtt_liontron_publisher.py:166-167 | `{vendor}_{name}`, the name being `Name` or the stripped MAC; see `DeviceNameCases`. |
| Publisher.MacMessages | mqtt_liontron_publisher.py:161-171 | What one battery contributes to a round; see `MacMessagesCases` and `NoConnectionNoMessages`. |
| Publisher.RoundMessages | mqtt_liontron_publisher.py:160-171 | What one pass over the MACs publishes: the contributions concatenated in MAC order; `PollRound` is proved to produce it and `FailureIsolated` states its isolation. |
| Publisher.Loads | mqtt_liontron_publisher.py:160-163 | There is one `getBatteryload` result per battery. |
| Publisher.Contributions | mqtt_liontron_publisher.py:160-171 | There is one part per battery. |
| Publisher.ConcatAppend | mqtt_liontron_publisher.py:160-171 | The messages of consecutive rounds of parts concatenate. |
| Publisher.ConcatStep | mqtt_liontron_publisher.py:160-171 | One more battery appends its part. |
| Publisher.PollBattery | mqtt_liontron_publisher.py:161-171 | One battery publishes its messages when its read returns a dict without `error`. It publishes nothing when the read raises or returns the error dict. |
| Publisher.PollRound | mqtt_liontron_publisher.py:160-171 | One pass over the MACs publishes each battery's messages in MAC order. |
| Publisher.ConcatDropEmpty | mqtt_liontron_publisher.py:170-171 | A battery that publishes nothing can be dropped from the concatenation. |
| Publisher.FailureIsolated | mqtt_liontron_publisher.py:164-171 | A failing battery leaves the rest of the round exactly as if it were not configured. |
| Publisher.MacMessagesCases | mqtt_liontron_publisher.py:163-169 | A battery publishes iff its read returns a dict without `error`, and then its state message comes first. |
| Publisher.NoConnectionNoMessages | mqtt_liontron_publisher.py:163-165 | A battery whose connect loop gives up publishes nothing. |
| Publisher.DeviceNameCases | mqtt_liontron_publisher.py:166-167 | The device is `{vendor}_{Name}` when the data has a `Name`. Otherwise it is `{vendor}_` plus `StripColonsLower(mac)`, the MAC's non-colon characters lower-cased, so no colon and no upper-case letter. |
| Publisher.DeviceNameOfMac | mqtt_liontron_publisher.py:166 | A battery without `Name` at `A4:AA:BB:CC:DD:EE` is announced as `{vendor}_a4aabbccddee`. |

## Left out

- The gatttool process, pexpect's prompt matching and its one-second timeouts are abstracted.
  The `Transport` oracle decides per attempt whether a prompt arrived in time. Real time is
  not modelled.
- The UTF-8 decoding of `child.before` and of the buffers before `bytearray.fromhex` is
  omitted. Buffers are modelled as text from the start.
- `bytearray.fromhex` is modelled as space-separated pairs of hex digits, with ASCII
  whitespace skipped between pairs. Any other text gives ValueError. Python's exact
  whitespace set beyond ASCII is not modelled.
- Float division is kept as exact rationals (`real`); rounding to binary floating point is
  not modelled. JSON serialisation is not modelled: the state message carries the dict
  itself, and a discovery message carries the payload record.
- In `battery.py`, the `data.json` round trip is taken as the identity on the dict, and the
  `os.path.isfile` check after a successful write always succeeds. The `Battery` of
  `battery.py` holds the file's contents as a field.
- `battery.py`'s `LED` base class, its `neopixel`, `sqlite3` and `readConfig` imports and its
  `__init__` are outside the model. That `__init__` never sets `_MAC`, which spawning needs;
  spawning is not modelled.
- Liontron.Battery.GetBatteryload: the `{"error": "No data available"}` branch is not
  modelled. `_raw_data` is always an attribute after `__init__`, so `hasattr` is always
  true there.
- The MAC a `Battery` holds is used only to start gatttool, which is not modelled.
- The MQTT connection, its last will, the `online`/`offline` status publishes, signal
  handling, `sys.exit`, YAML configuration, logging, `time.sleep` and the keepalive
  computation are outside the model. `publish` is modelled as appending a
  (topic, payload, retain) record.
- The outer `while running:` loop is not modelled. One pass over the MACs is modelled, and
  every pass behaves the same.
- A `Name` that is not a string is treated like a missing one. The
  decoder only ever stores text under `Name`.
- An exception raised by `publish` itself is not modelled, because `publish` is a recorded
  append.
- Strings.StripColonsLower: `str.lower()` is modelled on ASCII letters only, which is
  what a MAC address is written with.
- The checksum bytes of each frame are not checked by either decoder, and the model does
  not check them either.

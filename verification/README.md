# Solarmax poller — Dafny model

This project models the core of a poller for a Solarmax MT inverter (device
type `sm13MT2`). The model has two parts.

- **The wire codec and query session of `app/solarmax.py`:**
  - the additive checksum and frame validation;
  - request framing (`{FB;01;<len>|64:c1;c2;…|CSUM}`);
  - chunking of the command list and the list difference;
  - typed decoding of `code=value` pairs, including the composite hex timestamp;
  - the chunked query loop, which merges decoded chunks into a snapshot.
- **The polling engine of `app/datalogger.py`:**
  - the four logger states;
  - the doubling, capped waiting time;
  - the test-mode fault counter;
  - zero-forcing of momentary readings;
  - the decision of what one `logData` cycle publishes.

Everything is a pure function over immutable data. The socket is an oracle.
The caller passes whether the session's connection attempt succeeded, and one
`Reply(sendOk, received)` per chunk. `sendOk` says whether `send` raised, and
`received` is what `_receive` returned. The message bus is an output: a cycle
returns the `Emission` (topic and record) it would publish.

Modules, in dependency order:

| module | file | contents |
|---|---|---|
| `Arith` | arith.dfy | uniqueness of quotient and remainder |
| `Text` | text.dfy | Python slicing, `str.split`/`str.join` on one character |
| `Hex` | hex.dfy | `hex(n)[2:].upper()`, `int(s, 16)` on plain digits, zero padding |
| `Catalog` | catalog.dfy | `QUERY_MAP`, `MOMENTARIES`, `DAILYS` |
| `Timestamp` | timestamp.dfy | `_decodeDateTime`, the `datetime` validity rules, `strftime` of the date format |
| `Folds` | folds.dfy | the two dictionary folds (`d[k] = v` item by item, `d.update(m)` map by map) |
| `Codec` | codec.dfy | checksum, validation, request encoding, `_decode`, `getResponsePayload` |
| `Communication` | communication.dfy | `_chunkCommand`, `_difflist`, `_subquery`, `query` |
| `DataLogger` | datalogger.dfy | `loggerState`, backoff, test mode, `_query`, `_forceZero`, `logData` |

Behaviour that is modelled as the code is written, and that differs from what
the code's own comments and messages announce:

- **State transition on failure.** In `_query` the two `if` statements run one
  after the other. A failure while `LOGGING` therefore moves to `LOGGING_LAST`
  and, in the same call, on to `SLEEPING`. A failed query always ends in
  `SLEEPING`. `LOGGING_LAST` is never the state after a call, so the zero-forced
  record is never published. The source announces otherwise in three places:
  - the comment above `_forceZero` (app/datalogger.py:16-17) says it serves
    extra entries after the inverter goes down;
  - the warning at app/datalogger.py:132 says the zero-forced last
    measurement is resent;
  - `logData` has a `LOGGING_LAST` branch (app/datalogger.py:155-158) that
    publishes it.

  That branch cannot be reached after `_query`. The model follows the code:
  `DataLogger.NextState`, `DataLogger.LogData`,
  `DataLogger.TwoFailuresFromLogging`. `DataLogger.Emit` still models the
  unreachable branch, so what it would publish is stated.
- **List difference.** `_difflist` returns the items in exactly one of the two
  lists, i.e. a symmetric difference, not "requested minus decoded".
- **The previous snapshot.** `logData` builds a new session every cycle, so
  `decodeddata_last` is always empty when the polling engine reads it.
- **Bad checksum.** A bad checksum fails the query but leaves the connection
  marked as up. Only a failed send clears it. A failed send on the last chunk
  followed by a valid reply still counts as success.
- **Decoding scope.** `_decode` keeps only the text between the first and the
  second `:` of the frame without its last six characters.

## Model

| member | source | states |
|---|---|---|
| Catalog.CodesAreTheTable | app/solarmax.py:14-74 | the ordered code list and the query table hold the same 37 codes |
| Catalog.MomentariesAreScaled | app/solarmax.py:87-89 | every momentary code is a numeric field of the query table |
| Catalog.DailysAreScaled | app/solarmax.py:91-93 | `KDY` is numeric; no code is both momentary and daily; `SDAT` is neither |
| Hex.ToHex | app/solarmax.py:135 | `hex(n)[2:].upper()`: upper-case hex digits, no leading zero except for `0` |
| Hex.ParseHex | app/solarmax.py:152-156 | `int(s, 16)` restricted to plain hex digits succeeds iff the text is non-empty and every character is a hex digit |
| Hex.ParseToHex | app/solarmax.py:135 | parsing the rendered hex of `n` gives back `n` |
| Hex.ValueInjective | app/solarmax.py:135-136 | two equally long upper-case hex strings with the same value are equal, so a checksum field is determined by its value |
| Codec.Checksum | app/solarmax.py:132-137 | the checksum is upper-case hex of the character sum, zero-padded to at least 4 digits and never truncated; exactly 4 digits iff the sum is below 0x10000 |
| Codec.ChecksumExample | app/solarmax.py:132-137 | `Checksum("AB") == "0083"` |
| Codec.CharSum | app/solarmax.py:133-134 | the sum of the character codes is at least the code of every character |
| Hex.PadZeros | app/solarmax.py:136 | text of at least the width is unchanged; shorter text gets exactly the missing number of leading `0`s |
| Codec.CharSumAppend | app/solarmax.py:133-134 | the character sum of a concatenation is the sum of the parts' sums |
| Codec.Validate | app/solarmax.py:139-148 | a frame validates iff it has at least 5 characters and `s[-5:-1]` is four upper-case hex digits whose value is the character sum of `s[1:-5]` |
| Codec.FrameValidates | app/solarmax.py:139-148 | a frame `{` + body + checksum(body) + `}` validates iff the body's character sum is below 0x10000 |
| Codec.ShortFrameValidates | app/solarmax.py:140-145 | the five-character frame `0000}` validates, since its checked body is empty |
| Codec.Encode | app/solarmax.py:180-203 | `_encodeRequest` of a non-empty list is `{FB;01;` + hex length + `|64:` + the codes joined by `;` + `|` + checksum + `}` |
| Codec.EncodeEmpty | app/solarmax.py:193-198 | for an empty list the `:` of the header is overwritten by `|` |
| Codec.EncodeValidates | app/solarmax.py:196-201 | a request validates iff its checked body's character sum is below 0x10000 |
| Codec.EncodeLength | app/solarmax.py:186-187 | with a two-digit length field and a four-digit checksum, the length value `sum(len) + (n-1) + 19` is the length of the whole frame |
| Codec.EncodeItems | app/solarmax.py:228-234 | decoding's segment split recovers the command codes of a request |
| Codec.DecodeValue | app/solarmax.py:241-251 | a decoded value has the variant its rule produces; raw text is kept as is; a numeric value decodes iff it parses as hex, to that number; a timestamp decodes iff `_decodeDateTime` succeeds, to its result |
| Codec.DecodePair | app/solarmax.py:237-254 | a decoded pair's code is the text before the first `=`; the code is in the table and carries its table name and a conforming value; an item is kept iff it has a `=`, its code is in the table and the code's rule accepts the text between the first and second `=`, and the value is what that rule yields |
| Codec.Decode | app/solarmax.py:228-255 | decoding never fails: every entry is a code of the table with a conforming value, and input without `:` in `data[:-6]` decodes to `{}` |
| Codec.Items | app/solarmax.py:231-235 | `data[:-6].split(':')[1].split(';')`: the items exist iff `data[:-6]` holds a `:` (otherwise the source's `except` returns `{}`); they hold no `;` and joined by `;` give the segment between the first and second `:` |
| Codec.DecodeItems | app/solarmax.py:237-253 | the item loop only ever writes table codes with their table name and a conforming value |
| Codec.DecodeItemsIsStoreAll | app/solarmax.py:236-253 | the item loop is the write-by-write fold over the decoded items |
| Codec.DecodeItemsKeys | app/solarmax.py:236-253 | a code is in the result iff it was already present or some item decodes to it |
| Codec.DecodeItemsKeeps | app/solarmax.py:236-253 | an entry no item decodes to is unchanged |
| Codec.DecodeItemsLastWins | app/solarmax.py:236-253 | the last item decoding to a code decides its entry |
| Codec.DecodeSkipsUndecodable | app/solarmax.py:252-253 | removing an item that does not decode (missing `=`, unknown code, bad value) changes nothing |
| Codec.DecodeRawPair | app/solarmax.py:248-249 | a raw-text code decodes to its value text unchanged |
| Codec.DecodeScaledPair | app/solarmax.py:250-251 | a numeric code decodes any hex digits, zero-padded or not, to their number with its table factor |
| Codec.DecodePaddedValue | app/solarmax.py:250-251 | `UL1=0041` with factor 0.1 decodes to raw `0x41`, i.e. 6.5 |
| Codec.DecodeBadNumber | app/solarmax.py:251-253 | a numeric code whose value is not hex is dropped |
| Codec.DecodeBadStamp | app/solarmax.py:243-253 | a timestamp code whose value `_decodeDateTime` rejects is dropped |
| Codec.DecodeStampPair | app/solarmax.py:242-245 | a timestamp code decodes the stamp the inverter wrote |
| Codec.DecodeToleratesMalformed | app/solarmax.py:236-253 | with a valid `PAC` pair and a non-hex `UL1` pair, only `PAC` is decoded |
| Codec.QueryMapPowerAndVoltage | app/solarmax.py:39-48 | `PAC` is "AC Power (W)" with factor 0.5 and `UL1` is numeric in the query table |
| Codec.MagnitudeExample | app/solarmax.py:251 | raw `0x41` with factor 0.1 denotes 6.5 |
| Codec.FrameItems | app/solarmax.py:232 | the split of `data[:-6]` at `:` and `;` returns a frame's items when none holds `:` or `;` |
| Codec.DecodeFrame | app/solarmax.py:228-255 | a response frame decodes to the fold of its items |
| Codec.ResponsePayload | app/solarmax.py:162-166 | a response of 7 or more characters is its first character, the payload and its last six characters; a shorter one has an empty payload |
| Codec.ResponsePayloadOfFrame | app/solarmax.py:162-166 | the payload of a frame is its body without the closing `|` |
| Timestamp.DecodeDateTime | app/solarmax.py:150-160 | a decoded stamp is a valid date-time whose fields are the hex of `date[:3]`, `date[3:5]`, `date[5:]`, and `h*3600+m*60+s` equals the hex time; decoding succeeds whenever those parse and form a valid date |
| Timestamp.DecodeEncodeDateTime | app/solarmax.py:150-160 | decoding inverts the inverter's encoding of every valid stamp with a three-digit year |
| Timestamp.SecondsOfDayInverse | app/solarmax.py:156-158 | hours, minutes and seconds are recovered from the seconds of the day |
| Timestamp.SplitSeconds | app/solarmax.py:156-158 | the split of a time into hours, minutes and seconds adds back up, with minutes and seconds below 60 |
| Timestamp.DecodeDateTimeExample | app/solarmax.py:150-160 | `7E60305,7F28` is 5 March 2022, 09:02:32 |
| Timestamp.Dec2 | app/solarmax.py:7 | `%m`, `%d`, `%H`, `%M`, `%S`: two decimal digits whose value is the number |
| Timestamp.Dec4 | app/solarmax.py:7 | `%Y` for years below 10000: four decimal digits whose value is the year |
| Timestamp.FormatDateTime | app/solarmax.py:7 | the rendered stamp `%m/%d/%Y, %H:%M:%S` has 20 characters |
| Timestamp.ReadFormatted | app/solarmax.py:7 | reading the digit groups of `%m/%d/%Y, %H:%M:%S` at their fixed places, between the fixed separators, gives back the rendered moment |
| Timestamp.FormatDateTimeInjective | app/solarmax.py:7 | distinct valid moments render as distinct strings |
| Timestamp.FormatDateTimeExample | app/solarmax.py:7 | the example stamp renders as `03/05/2022, 09:02:32` |
| Folds.StoreAllLastWins | app/solarmax.py:236-253 | in the item fold the last write to a key decides its value |
| Folds.StoreAllSkipsNone | app/solarmax.py:252-253 | an item that writes nothing can be removed |
| Folds.MergeKeys | app/solarmax.py:302 | the merged snapshot holds exactly the keys of the merged maps |
| Folds.MergeLastWins | app/solarmax.py:302 | with `update`, the last map holding a key decides its value |
| Communication.Chunk | app/solarmax.py:123-124 | every chunk has 1..n items and all but the last exactly n |
| Communication.ChunkFlatten | app/solarmax.py:123-124 | concatenating the chunks gives back the list |
| Communication.ChunkCount | app/solarmax.py:123-124 | there are ⌈len/n⌉ chunks |
| Communication.ChunkStride | app/solarmax.py:123-124 | chunk j is the slice `l[j*n : j*n+n]` |
| Communication.ChunkExact | app/solarmax.py:123-124 | exactly n items make one chunk |
| Communication.ChunkOneMore | app/solarmax.py:123-124 | n+1 items make a full chunk and a chunk with the last item |
| Communication.DiffList | app/solarmax.py:126-128 | an item is in the result iff it is in exactly one list, and it occurs as often as in the two lists together |
| Communication.DiffListIsSymmetric | app/solarmax.py:126-128 | a decoded code that was not requested is reported too |
| Communication.NewSession | app/solarmax.py:98-112 | a new session has empty snapshots, the full query table and 20 codes per chunk |
| Communication.SubQuery | app/solarmax.py:281-308 | without a connection nothing is sent; otherwise the request is sent, a send error clears the connection, and the exchange succeeds iff the reply validates, in which case its decode is merged in |
| Communication.RunChunks | app/solarmax.py:319-323 | the chunk loop leaves the previous snapshot, the query table and the chunk size alone |
| Communication.RunChunksOk | app/solarmax.py:321-324 | the loop succeeds iff every chunk passes |
| Communication.RunChunksDecoded | app/solarmax.py:321-324 | the snapshot is the `update` fold of the decodes of the chunks that passed |
| Communication.RunChunksSent | app/solarmax.py:321-324 | the requests written are the encodings of the chunks attempted, in order |
| Communication.RunChunksConnected | app/solarmax.py:321-324 | the connection stays up iff it was up and every attempted send worked |
| Communication.Unsupported | app/solarmax.py:326-327 | the reported codes are those in exactly one of the command list and the snapshot |
| Communication.UnsupportedIsDiffList | app/solarmax.py:325 | the reported codes are the elements of `_difflist(commandlist, keys)` |
| Communication.Query | app/solarmax.py:310-329 | the old snapshot becomes the previous one; success iff connected, every reply validates and every send but the last works; the snapshot is the fold of the passing chunks' decodes; the unsupported codes are reported only on success |
| Communication.AllPass | app/solarmax.py:281-324 | every chunk passes iff connected, every reply validates and every send but the last works |
| Communication.BadChecksumKeepsConnection | app/solarmax.py:303-306 | a bad checksum fails the query without dropping the connection |
| Communication.FailureKeepsEarlierChunks | app/solarmax.py:321-324 | on the first failing chunk the query fails and keeps the data of the earlier chunks |
| Communication.LaterChunkWins | app/solarmax.py:302 | on success, the last chunk that decodes a code decides its entry |
| DataLogger.Commands | app/datalogger.py:56-59 | `All` queries the table's codes; otherwise the comma-separated list, which is never empty |
| DataLogger.NewLogger | app/datalogger.py:37-54 | a new logger keeps its configuration, starts uninitialised at the minimum wait with the test counter at 0, and satisfies the invariant when the window is valid |
| DataLogger.IncreaseWaitingTime | app/datalogger.py:95-98 | the wait doubles, capped at the maximum |
| DataLogger.IncreaseStaysInWindow | app/datalogger.py:95-98 | the increase never shortens the wait and keeps it within the window |
| DataLogger.IncreasesClosedForm | app/datalogger.py:95-98 | after n failures from the minimum the wait is `min(stepMin * 2^n, stepMax)` |
| DataLogger.BackoffExample | app/datalogger.py:95-98 | with a window of 5..60 the failures wait 10, 20, 40, 60, 60 |
| DataLogger.TestMode | app/datalogger.py:103-112 | a forced status is never true unless the input was; calls three to six are forced to fail; the counter cycles through 0..5 |
| DataLogger.TestModePattern | app/datalogger.py:103-112 | over any run of calls, a call passes its status through iff it is among the first two of its group of six |
| DataLogger.TestModeSixCalls | app/datalogger.py:103-112 | six calls from zero: pass, pass, fail ×4, and the counter is back at zero |
| DataLogger.NextState | app/datalogger.py:120-137 | success always leads to `Logging`, failure always to `Sleeping`, from any state |
| DataLogger.Effective | app/datalogger.py:115-118 | the status acted on is true only if the query's was; outside test mode it is the query's and the counter is untouched; in test mode it is the counter step of `_test_mode` |
| DataLogger.Poll | app/datalogger.py:100-139 | `_query`: the test counter is the one test mode left; `Logging` with the wait reset to the minimum (`_reset_waiting_time`) on success, `Sleeping` with the increased wait on failure, never `LoggingLast`; the invariant is preserved |
| DataLogger.TestModeSixPolls | app/datalogger.py:100-139 | in test mode, six answered polls from a fresh counter log twice, then sleep four times, and the counter is back at 0 |
| DataLogger.PollsKeepInvariant | app/datalogger.py:114-139 | over any sequence of query results the wait stays in the window, the counter in 0..5, and the state is never `LoggingLast` |
| DataLogger.FailuresBackOff | app/datalogger.py:126-127 | outside test mode, n failed polls from the minimum wait leave `min(stepMin * 2^n, stepMax)` |
| DataLogger.ForceZero | app/datalogger.py:18-29 | keys and descriptions are kept; momentaries become 0; dailies become 0 only when asked; `SDAT` is overwritten only if an overwrite is given and `SDAT` is present; other entries are unchanged |
| DataLogger.ForceZeroIdempotent | app/datalogger.py:18-29 | forcing twice with the same arguments equals forcing once |
| DataLogger.Emit | app/datalogger.py:149-161 | `Logging` publishes the snapshot plus the unmodified marker; `LoggingLast` publishes `_forceZero` of the previous snapshot without clearing dailies, plus the forced marker; other states publish nothing |
| DataLogger.Respond | app/datalogger.py:146-161 | after a query: the logger is `_query`'s update for its status; a record is published iff the new state is `Logging`, and it is the snapshot with `MOD = 0, "non modified"` added, sent to `<prefix>-sm13MT2`; the invariant is preserved |
| DataLogger.LogData | app/datalogger.py:141-163 | the query is `query` on a new session with the configured codes, so by `Communication.Query` it succeeds iff connected, every reply validates and every send but the last works; the logger is `_query`'s update for that status; the previous snapshot is empty; the state is `Logging` iff the effective status is true, else `Sleeping`; a record is published iff the state is `Logging`, and it is the snapshot with `MOD = 0, "non modified"` added, sent to `<prefix>-sm13MT2`; the invariant is preserved |
| DataLogger.TwoFailuresFromLogging | app/datalogger.py:126-158 | two cycles without a connection starting from `Logging` both end sleeping and publish nothing |

## Left out

- All of `app/main.py`: thread start-up, the shared state value and its lock, the heartbeat, configuration parsing and log rotation.
- Sockets: `_connect`, `_disconnect`, `_send`, `_receive` and `__del__` are replaced by the connection flag and the per-chunk `Reply` oracle. A `recv(2048)` that truncates a longer reply is not modelled separately; it is simply another reply text.
- `_sendToMQTT`: publishing is the returned `Emission`. The `Enable` switch is not modelled.
- The UTF-8 encoding of the request and decoding of the reply: the model works on character strings.
- `ERROR_CODES`, `_isNewDay` (never called), `getDataAsJson`, `getCommandList`, `getDeviceType` (the constant `sm13MT2`) and all logging calls.
- The constructor settings that the cycle does not read: the inverter address `adr`, which `_encodeRequest` ignores, `ForceLastToZero`, the MQTT broker and port.
- Codec.DecodeValue: a scaled value is kept as its hex integer and factor. `round(float(...) * factor, 3)` is a float computation and is not modelled; `Codec.Magnitude` gives the exact number it approximates. For a value of at least 2^1024 − 2^970 (which needs 256 or more significant hex digits) `float()` raises, the `except` drops the pair and the source stores nothing; the model keeps the pair.
- Hex.ParseHex: Python's `int(s, 16)` also accepts a `0x` prefix, a sign, surrounding whitespace and underscores. The model accepts plain hex digits only, so such values are dropped here where the source would decode them.
- Timestamp.DecodeDateTime: the decoded stamp is kept as a structured date-time. `strftime` is modelled only for the one format, with the year padded to four digits. `int(time / 3600)` goes through a float, which matches integer division only for times below 2^53.
- Timestamp.FormatDateTime: `%Y` is always zero-padded to four digits. Some C libraries print a year below 1000 without padding; such a year needs a decoded year field below 0x3E8, and the model assumes the padded form.
- Timestamp.DecodeEncodeDateTime: the round trip is stated for years below 0x1000, the range three hex digits can hold.
- Communication.Query: requires a non-empty command list and a chunk size above zero. With an empty list `query` fails on an unbound `status`, and with zero `range` raises. The oracle must supply one reply per chunk.
- Communication.Unsupported: the warning's list is modelled as the set of its elements; the order of dictionary keys is not modelled.
- DataLogger.ForceZero: a present overwrite stands for a truthy `sdat_overwrite`. A falsy value other than `None`, such as an empty string, is not distinguished from `None`.
- DataLogger.LogData: the integer marker `MOD = 0` is modelled as the number 0; the int/float distinction of JSON values is dropped.

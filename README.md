# Douyu danmaku client and lottery store, modelled in Dafny

This project models two parts of a browser tool that runs a lottery among the
viewers of a Douyu live room.

The first part is the anonymous danmaku (chat) client in
`src/utils/douyu_ex_websocket.ts`:

- **Outbound framing** (`webSocketPacket`): a command becomes a binary frame. The frame
  holds a little-endian 32-bit length field twice, then the message type 689, then the
  encoded body, then a trailing NUL.
- **Hand-written UTF-8-like transcoder** (`stringToByte` / `byteToString`).
- **Hexadecimal word codec** (`hex2bin` / `hex`).
- **Inbound splitting rule**: received text is split at NUL, and only pieces longer than
  12 code units reach the callback.
- **The `ExWebSocketUnLogin` session** as an event machine. Socket events arrive as
  method calls: open, heartbeat tick, message, close, and the owner's `close()`. What the
  session sends and what it hands to its callbacks is recorded in fields.

The second part is the Pinia lottery store in `src/store/lotteryStore.ts`. It is a
`LotteryStore` class whose fields are the store's `participants`, `winners` and
`settings`. It has these actions:

- `addParticipant`: no duplicate user names, up to a capacity.
- `removeParticipant`: removes the first entry with the id.
- `clearParticipants`.
- The `filteredParticipants` / `participantCount` getters, which filter by minimum level.
- `drawWinner`: draws distinct winners with a given sequence of random indices.
- `updateSettings`: a partial merge.
- `clearWinners`.

Files:

- `bytes.dfy`: JavaScript code units and bytes, and little-endian `Uint32Array` views.
  It also holds the `Option` type.
- `transcoder.dfy`: `stringToByte` and `byteToString`.
- `hexcodec.dfy`: `hex2bin` and `hex`.
- `packet.dfy`: `webSocketPacket`.
- `inbound.dfy`: splitting at NUL and filtering short pieces.
- `session.dfy`: `ExWebSocketUnLogin`.
- `lottery.dfy`: the lottery store.

Strings are sequences of UTF-16 code units (0..0xFFFF), because `charCodeAt`,
`String.fromCharCode` and `length` work on code units. Bytes are 0..255.

The decoder is written once. It takes a parameter saying how many bits of a lead byte it
keeps:

- `KeepKPlusOne` is `byteToString` as written;
- `KeepPayload` is the evidently intended UTF-8 cut.

See "## Findings".

## Model

| member | source | states |
|---|---|---|
| `Bytes.U32ValueOfBytes` | src/utils/douyu_ex_websocket.ts:61-66 | Reading back the four little-endian bytes of a `Uint32Array` element gives the stored value modulo 2^32. |
| `Bytes.U32BytesOfValue` | src/utils/douyu_ex_websocket.ts:61-66 | Any four bytes are the little-endian image of the 32-bit value they denote, so the view is a bijection. |
| `Transcoder.EncodeUnit` | src/utils/douyu_ex_websocket.ts:76-91 | One code unit encodes to 1 to 3 bytes. |
| `Transcoder.EncodeUnitLayout` | src/utils/douyu_ex_websocket.ts:82-91 | Below 0x80 a unit is one raw byte. Up to 0x7FF it is `110xxxxx 10xxxxxx`, and above that `1110xxxx 10xxxxxx 10xxxxxx`. The payload bits give the unit back. |
| `Transcoder.Encode` | src/utils/douyu_ex_websocket.ts:72-94 | The encoding of a string has between one and three bytes per code unit. |
| `Transcoder.EncodeAppend` | src/utils/douyu_ex_websocket.ts:75-92 | Encoding works unit by unit: the encoding of `s + t` is the encoding of `s` followed by the encoding of `t`. |
| `Transcoder.EncodeAscii` | src/utils/douyu_ex_websocket.ts:89-90 | A string of units below 0x80 encodes to its own units, one byte each. |
| `Transcoder.StringToByte` | src/utils/douyu_ex_websocket.ts:72-94 | The loop pushes exactly the bytes of `Encode(str)`. |
| `Transcoder.LeadingOnes` | src/utils/douyu_ex_websocket.ts:102-105 | The regular expression finds a run of 1 to 7 leading one bits exactly when the 8-digit byte is in 0x80..0xFE. |
| `Transcoder.PlainBytes` | src/utils/douyu_ex_websocket.ts:112-114 | An array with no lead byte (only bytes below 0x80, or 0xFF) decodes to its own bytes, one unit each. |
| `Transcoder.ByteToString` | src/utils/douyu_ex_websocket.ts:96-117 | A string argument is returned unchanged. A byte array decodes exactly when every lead byte has the following bytes it asks for, and the result is `Decode(KeepKPlusOne, bytes)`. Otherwise it is `None`, where the source throws. |
| `Transcoder.ReadUnit` | src/utils/douyu_ex_websocket.ts:105-110 | The inner loop's numeral, reduced to 16 bits as `fromCharCode` does, is the unit `Decode` assigns to the lead byte and its followers. |
| `Transcoder.DecodeAdvance` | src/utils/douyu_ex_websocket.ts:101-115 | A step of the cursor (k bytes after a lead byte, else 1) keeps completeness and extends the decoded prefix by the unit at the cursor. |
| `Transcoder.HighByteWidth` | src/utils/douyu_ex_websocket.ts:108 | A byte of 0x80 or more has 8 binary digits, so `.slice(2)` keeps 6 of them. |
| `Transcoder.AppendContinuations` | src/utils/douyu_ex_websocket.ts:107-109 | Each following byte of 0x80 or more appends its low 6 bits to the numeral. |
| `Transcoder.UnitOfContinuations` | src/utils/douyu_ex_websocket.ts:105-110 | With proper following bytes, the unit is the kept lead bits, then 6 bits per following byte, reduced to 16 bits. |
| `Transcoder.DecodeUnitPrefix` | src/utils/douyu_ex_websocket.ts:104-111 | A lead byte with exactly its k-1 following bytes, placed before a complete array, decodes to one unit followed by the rest's decoding. |
| `Transcoder.TwoByteUnit` | src/utils/douyu_ex_websocket.ts:104-110 | A `110xxxxx 10xxxxxx` pair decodes to (lead mod 8)·64 + low 6 bits as written, and to (lead mod 32)·64 + low 6 bits with the payload cut. |
| `Transcoder.ThreeByteUnit` | src/utils/douyu_ex_websocket.ts:104-110 | A `1110xxxx 10xxxxxx 10xxxxxx` triple decodes to its 4+6+6 payload bits under either cut. |
| `Transcoder.TwoByteValue` | src/utils/douyu_ex_websocket.ts:86-88 | The two bytes encoded for a unit in 0x80..0x7FF decode back to the unit mod 0x200 as written, and to the unit itself with the payload cut. |
| `Transcoder.ThreeByteValue` | src/utils/douyu_ex_websocket.ts:82-85 | The three bytes encoded for a unit of 0x800 or more decode back to the unit under either cut. |
| `Transcoder.DecodeEncodedUnit` | src/utils/douyu_ex_websocket.ts:82-91 | Decoding the bytes of one encoded unit followed by a complete array gives `RoundTripUnit` of the unit, then the rest's decoding. |
| `Transcoder.DecodeAsciiUnit` | src/utils/douyu_ex_websocket.ts:89-90 | The same, for a unit below 0x80. |
| `Transcoder.DecodeTwoByteUnit` | src/utils/douyu_ex_websocket.ts:86-88 | The same, for a unit in 0x80..0x7FF. |
| `Transcoder.DecodeThreeByteUnit` | src/utils/douyu_ex_websocket.ts:82-85 | The same, for a unit of 0x800 or more. |
| `Transcoder.DecodeEncode` | src/utils/douyu_ex_websocket.ts:72-117 | For every string, the encoding is complete and decodes to a string of the same length. Each unit comes back as `RoundTripUnit` says: exact, except 0x200..0x7FF under the as-written cut, which come back mod 0x200. |
| `Transcoder.DecodeEncodeExact` | src/utils/douyu_ex_websocket.ts:72-117 | `byteToString(stringToByte(s)) == s` for every string with no unit in 0x200..0x7FF. This covers ASCII, Latin-1 and the CJK range. |
| `Transcoder.TwoByteUnitLost` | src/utils/douyu_ex_websocket.ts:106 | Counterexample: U+0400 encodes to D0 80 and decodes as written to U+0000. |
| `Transcoder.PayloadRoundTrip` | src/utils/douyu_ex_websocket.ts:72-117 | With the lead byte cut to its 7-k payload bits, decoding inverts encoding for every string. |
| `HexCodec.Words` | src/utils/douyu_ex_websocket.ts:126-131 | One word per eight hexadecimal digits. |
| `HexCodec.WordsAt` | src/utils/douyu_ex_websocket.ts:126-131 | Word j is the j-th group of eight digits read with its four byte tokens in reverse order. |
| `HexCodec.WordsOfGroups` | src/utils/douyu_ex_websocket.ts:126-131 | Any list holding the word of each group, in order, is `Words(e)`. |
| `HexCodec.ParseHexToken` | src/utils/douyu_ex_websocket.ts:128 | Appending a two-digit token multiplies the numeral by 256 and adds the token's byte. |
| `HexCodec.ReversedGroup` | src/utils/douyu_ex_websocket.ts:128 | `parseInt` of the four reversed tokens is the little-endian value of the group. |
| `HexCodec.TokenInGroup` | src/utils/douyu_ex_websocket.ts:127-129 | The i-th token of a group is the substring two digits wide at the group's offset plus 2i. |
| `HexCodec.GroupOfTokens` | src/utils/douyu_ex_websocket.ts:127-129 | `r.slice(s, s + 4)` of the token list is the j-th group's tokens. |
| `HexCodec.Tokens` | src/utils/douyu_ex_websocket.ts:121-125 | The first loop produces one token per two digits, token k being digits 2k and 2k+1. |
| `HexCodec.Hex2Bin` | src/utils/douyu_ex_websocket.ts:119-134 | For a string of characters in the Basic Multilingual Plane, the result is null exactly when the length is not a multiple of 8. Otherwise it is `Words(e)`. |
| `HexCodec.WordHex` | src/utils/douyu_ex_websocket.ts:139-144 | Each word becomes eight lower-case hexadecimal digits. |
| `HexCodec.Hex` | src/utils/douyu_ex_websocket.ts:136-148 | The result has eight lower-case digits per word. |
| `HexCodec.WordHexTokens` | src/utils/douyu_ex_websocket.ts:141-143 | Token o of a word's digits is its o-th little-endian byte, high nibble first. |
| `HexCodec.GroupOfWordHex` | src/utils/douyu_ex_websocket.ts:126-144 | Reading a word's eight digits back as a group gives the word modulo 2^32. |
| `HexCodec.WordHexOfGroup` | src/utils/douyu_ex_websocket.ts:126-144 | Writing out the word of a lower-case group gives the group back. |
| `HexCodec.WordsOfHex` | src/utils/douyu_ex_websocket.ts:119-148 | `hex2bin(hex(ws))` gives every word back modulo 2^32. |
| `HexCodec.Hex2BinOfHex` | src/utils/douyu_ex_websocket.ts:119-148 | For words in 0..2^32-1, `hex2bin(hex(ws)) == ws`. |
| `HexCodec.HexOfHex2Bin` | src/utils/douyu_ex_websocket.ts:119-148 | For lower-case hexadecimal of a length divisible by 8, `hex(hex2bin(h)) == h`. |
| `Packet.TypeField` | src/utils/douyu_ex_websocket.ts:54-66 | The type field is the bytes B1 02 00 00, which read back as 689. |
| `Packet.FrameLayout` | src/utils/douyu_ex_websocket.ts:53-70 | A frame is 13 bytes longer than the body. Its two length fields are identical and hold body length + 9 modulo 2^32. Then come the type 689, the encoded body, and a final zero. |
| `Packet.SetBytes` | src/utils/douyu_ex_websocket.ts:64-67 | `buffer.set(src, offset)` overwrites exactly the bytes at offset onwards and nothing else. |
| `Packet.Assembly` | src/utils/douyu_ex_websocket.ts:56-67 | The four `set` calls on a zeroed buffer give length + length + type + body + a zero. |
| `Packet.CopyOf` | src/utils/douyu_ex_websocket.ts:57-60 | The copy loop fills a fresh array with the body bytes. |
| `Packet.WebSocketPacket` | src/utils/douyu_ex_websocket.ts:53-70 | Returns a fresh buffer holding exactly `Frame(str)`. |
| `Inbound.Split` | src/utils/douyu_ex_websocket.ts:29 | `split` always yields at least one piece. |
| `Inbound.JoinSplit` | src/utils/douyu_ex_websocket.ts:29 | Joining the pieces with the separator gives the text back. |
| `Inbound.SplitPiecesFree` | src/utils/douyu_ex_websocket.ts:29 | No piece contains the separator. |
| `Inbound.SplitUnique` | src/utils/douyu_ex_websocket.ts:29 | Any separator-free pieces that join to the text are the split. |
| `Inbound.SplitWithoutSeparator` | src/utils/douyu_ex_websocket.ts:29 | Text without the separator splits into itself alone. |
| `Inbound.SplitAtSeparator` | src/utils/douyu_ex_websocket.ts:29 | Splitting `a + [sep] + b` is splitting `a`, then splitting `b`. |
| `Inbound.SplitPieceLength` | src/utils/douyu_ex_websocket.ts:29 | No piece is longer than the text. |
| `Inbound.DeliveredMembers` | src/utils/douyu_ex_websocket.ts:30-35 | A piece is passed on if and only if it is one of the pieces and is longer than 12. |
| `Inbound.DeliveredAppend` | src/utils/douyu_ex_websocket.ts:30-35 | Filtering keeps order and works piece by piece. |
| `Inbound.OnlyNoise` | src/utils/douyu_ex_websocket.ts:31-32 | Pieces of at most 12 units are all dropped. |
| `Inbound.MessagesWellFormed` | src/utils/douyu_ex_websocket.ts:29-35 | Every delivered message is longer than 12 and free of NUL. The pieces joined at NUL are the received text. |
| `Inbound.FramePieces` | src/utils/douyu_ex_websocket.ts:29-70 | A frame with a NUL-free body splits into pieces of its 10-byte header, then an empty piece, the body, and an empty piece. Each header piece is at most 10 long. |
| `Inbound.FrameReadBack` | src/utils/douyu_ex_websocket.ts:29-35 | A frame split byte for byte (one unit per byte) at NUL and filtered leaves its body alone, when the body is NUL-free and longer than 12. Where the body is ASCII this is also what `readAsText` gives, as `AsciiFrameReadBack` states. |
| `Inbound.ShortFrameIsNoise` | src/utils/douyu_ex_websocket.ts:31-32 | A frame whose body is NUL-free and at most 12 long delivers nothing. |
| `Inbound.AsciiFrameReadBack` | src/utils/douyu_ex_websocket.ts:29-35 | A NUL-free ASCII command longer than 12 comes back as itself. |
| `Session.CommandsReadBack` | src/utils/douyu_ex_websocket.ts:20-35 | For an ASCII room id, the login and join-group frames each read back as their command. |
| `Session.HeartbeatIsNoise` | src/utils/douyu_ex_websocket.ts:23-32 | `type@=mrkl/` is 11 units long, so its frame delivers nothing. |
| `Session.ExWebSocketUnLogin.constructor` | src/utils/douyu_ex_websocket.ts:11-18 | A new session has sent nothing, delivered nothing, has no timer, and has not closed. |
| `Session.ExWebSocketUnLogin.OnOpen` | src/utils/douyu_ex_websocket.ts:19-25 | On the one `open` event (no interval started yet), sends login then join-group for the room, and arms the heartbeat with the interval id. |
| `Session.ExWebSocketUnLogin.Tick` | src/utils/douyu_ex_websocket.ts:22-24 | An armed heartbeat sends `type@=mrkl/`, and a cleared one sends nothing. |
| `Session.ExWebSocketUnLogin.OnMessage` | src/utils/douyu_ex_websocket.ts:26-38 | The callback receives, in order, exactly `Messages(text)`. Nothing else changes. |
| `Session.ExWebSocketUnLogin.OnClose` | src/utils/douyu_ex_websocket.ts:39-41 | The error callback fires once more. The timer is left as it is. |
| `Session.ExWebSocketUnLogin.Close` | src/utils/douyu_ex_websocket.ts:47-50 | The heartbeat is cleared and a socket close is requested. |
| `Session.SessionLifecycle` | src/utils/douyu_ex_websocket.ts:19-50 | Open, one tick, `close()`, any number of further ticks, and the close event together send exactly login, join and one heartbeat, and fire the error callback once. |
| `Lottery.Filter` | src/store/lotteryStore.ts:21 | `Array.prototype.filter` never lengthens the list. |
| `Lottery.FilterMembers` | src/store/lotteryStore.ts:21 | An entry survives filtering if and only if it is in the list and satisfies the criterion. |
| `Lottery.FilterAppend` | src/store/lotteryStore.ts:21 | Filtering keeps order: it distributes over concatenation. |
| `Lottery.FilterAll` | src/store/lotteryStore.ts:21 | Filtering a list whose entries all qualify changes nothing. |
| `Lottery.EligibleSpec` | src/store/lotteryStore.ts:20-22 | The eligible participants are exactly those of level at least `minLevel`, in their original order. |
| `Lottery.AllEligible` | src/store/lotteryStore.ts:20-22 | With every level at least `minLevel`, all participants are eligible. |
| `Lottery.LotteryStore.FilteredParticipants` | src/store/lotteryStore.ts:20-22 | The getter lists exactly the participants of level at least `minLevel`. |
| `Lottery.LotteryStore.ParticipantCount` | src/store/lotteryStore.ts:24 | The count is at most the number of participants, and zero exactly when nobody reaches `minLevel`. |
| `Lottery.FindByUsername` | src/store/lotteryStore.ts:28 | `find` by user name succeeds exactly when some participant has that name, and returns one. |
| `Lottery.AddKeepsInvariant` | src/store/lotteryStore.ts:28-38 | Adding a new name under capacity keeps user names distinct and stays within `maxParticipants`. |
| `Lottery.IndexOfId` | src/store/lotteryStore.ts:46 | `findIndex` is -1 exactly when no participant has the id. Otherwise it is the first index with that id. |
| `Lottery.RemoveFirstLength` | src/store/lotteryStore.ts:45-50 | Removing a present id shortens the list by one. Removing an absent id changes nothing. |
| `Lottery.RemoveKeepsOthers` | src/store/lotteryStore.ts:45-50 | Every participant with another id stays, in order, and one entry with the id goes. |
| `Lottery.FilterSplice` | src/store/lotteryStore.ts:48 | `splice(k, 1)` removes one entry from a filter's result when the entry qualified, and none otherwise. |
| `Lottery.RemoveKeepsInvariant` | src/store/lotteryStore.ts:45-50 | Removal keeps user names distinct. |
| `Lottery.SelectExtends` | src/store/lotteryStore.ts:69-76 | The drawing loop only appends to the chosen winners, never repeats an id, and takes only eligible participants. |
| `Lottery.Picks` | src/store/lotteryStore.ts:64-76 | The draw yields min(winnerCount, eligible count) winners (none if that is negative), all eligible, with distinct ids. |
| `Lottery.SequentialRolls` | src/store/lotteryStore.ts:69-76 | When the random indices run 0, 1, 2, … over participants with distinct ids, the draw takes the first `target` of them. |
| `Lottery.SharedIdNeverSuffices` | src/store/lotteryStore.ts:69-76 | Two eligible participants sharing an id never yield a second winner, whatever the rolls: a draw for two winners over them never ends. |
| `Lottery.RollsExist` | src/store/lotteryStore.ts:69-76 | For participants with distinct ids, some sequence of random indices always lets the loop finish. |
| `Lottery.Merge` | src/store/lotteryStore.ts:86-88 | Each supplied field replaces the current one, and each absent field is kept. |
| `Lottery.MergeLaws` | src/store/lotteryStore.ts:86-88 | The empty patch changes nothing. Applying a patch twice is applying it once. Two patches in turn are one combined patch. |
| `Lottery.FindById` | src/store/lotteryStore.ts:73 | `find` by id succeeds exactly when some winner has that id. |
| `Lottery.LotteryStore.constructor` | src/store/lotteryStore.ts:7-17 | An empty store with the default settings. |
| `Lottery.LotteryStore.AddParticipant` | src/store/lotteryStore.ts:27-43 | Returns true if and only if the name is new and there is room. Then the participant is appended with the given id and time. Otherwise nothing changes. User names stay distinct. |
| `Lottery.LotteryStore.RemoveParticipant` | src/store/lotteryStore.ts:45-50 | The first participant with the id, if any, is removed. Nothing else changes. |
| `Lottery.LotteryStore.ClearParticipants` | src/store/lotteryStore.ts:52-54 | The participants are emptied. Winners and settings are unchanged. |
| `Lottery.LotteryStore.DrawWinner` | src/store/lotteryStore.ts:56-84 | With nobody eligible, the result is null and nothing changes. Otherwise the picks are put in front of the winners, the running flag ends false, and the first pick is returned (none when the target is not positive). |
| `Lottery.LotteryStore.UpdateSettings` | src/store/lotteryStore.ts:86-88 | The settings become the merge of the old settings with the patch. |
| `Lottery.LotteryStore.ClearWinners` | src/store/lotteryStore.ts:90-92 | The winners are emptied. Nothing else changes. |

## Left out

- The WebSocket transport, `FileReader.readAsText`, `window.setInterval` timing and the
  URL are outside the model.
  - Socket events are method calls on the session.
  - `readAsText`'s UTF-8 decoding of a received frame is the text `OnMessage` is given.
  - The interval id is a parameter.
- The environment check and its `throw` (src/utils/douyu_ex_websocket.ts:16, 42-43) are
  not modelled; a session is always constructed.
- `ExWebSocketUnLogin.Close` only requests the close. The close event the socket later
  delivers is a separate `OnClose` call.
- `ExWebSocketUnLogin.OnOpen` requires a nonzero interval id, because browsers never
  return 0 from `setInterval`. The `if (this.timer)` test is still modelled.
- The 4-byte branch of `stringToByte` (lines 77-81) is not modelled. `charCodeAt`
  returns a 16-bit code unit, so that branch cannot be reached; astral characters travel
  as two 3-byte surrogate encodings, and the model does that.
- JavaScript numbers are modelled as unbounded integers, with bytes 0..255 and code
  units 0..0xFFFF. Non-integer or out-of-range array elements passed to `byteToString`,
  and non-integer words passed to `hex`, are not modelled. The wrapping the source relies
  on is written out:
  - `ToUint32` in `Uint32Array` is `% 2^32`.
  - `ToInt32` under `hex`'s `>>` is also `% 2^32`, since `& 15` reads only the low 32 bits.
  - `ToUint16` in `fromCharCode` is `% 0x10000`.
- `Uint32Array` is taken to be little-endian, as on every platform browsers run on.
- HexCodec.Hex2Bin: requires hexadecimal digits when the length is a multiple of 8. What
  `parseInt(_, 16)` returns for other characters is not modelled. It skips leading
  whitespace, accepts a sign and a `0x` prefix, and reads the longest leading run of hex
  digits, so it can give a partial value, a signed value, or `NaN` when there is no run.
  For example, `"000000-1"` gives `[-16777216]` and `"0000000g"` gives `[0]`.
- HexCodec.Hex2Bin: strings with characters outside the Basic Multilingual Plane are not
  modelled. The model counts such a character as one element, but `e.length` counts two
  UTF-16 code units. For example, four U+1F600 characters give `None` here, while the
  source tokenises them and returns `[NaN]`.
- `byteToString`'s `TypeError` on a lead byte with too few following bytes is modelled
  as the result `None`.
- `generateId`, `Date.now` and `Math.random` become parameters: the id, the time, and the
  sequence of random indices.
  - `DrawWinner` requires the indices to be in range and to be enough for the loop to
    finish. With fewer, the source loop would spin until `Math.random` supplied more.
  - `Lottery.RollsExist` shows that such indices always exist when the eligible
    participants' ids are distinct.
- Nothing in the store keeps ids distinct. `addParticipant` stores whatever
  `generateId()` returns (src/store/lotteryStore.ts:32, 95-97), and a collision is never
  checked.
  - When the eligible list holds fewer distinct ids than the target
    `min(winnerCount, eligible.length)`, the `while` loop at lines 69-76 never ends.
  - `DrawWinner`'s `Suffices` precondition excludes exactly that case.
  - `Lottery.SharedIdNeverSuffices` proves an instance: for two eligible participants
    with the same id and a target of 2, no sequence of rolls suffices.
- Lottery.LotteryStore.DrawWinner: the `setTimeout`/`Promise` delay is not modelled. The
  draw is one atomic step, so the intermediate state with `isLotteryRunning` set to true
  while the animation runs is not observable in the model.
- `animationSpeed` and `isReadingChat` are plain settings fields. Nothing in the core
  reads them.
- A `Partial<LotterySettings>` field set explicitly to `undefined` is not modelled. A
  patch field is either supplied or absent.
- Vue reactivity, Pinia, `main.ts`, `vite.config.ts`, the type declarations and the room
  id resolution are not part of this model.
- Facts about the danmaku client's code that the model keeps:
  - The length field holds the body length + 9 (src/utils/douyu_ex_websocket.ts:61).
  - `hex2bin` and `hex` work on 32-bit words of 8 digits each (lines 126-131 and 139-144).
  - Only `close()` clears the heartbeat interval (line 48); `onclose` leaves it running.
- The session does not itself refuse messages after a close event. The handlers stay
  installed, and it is the closed socket that delivers no further messages.

## Findings

| source | as written | input that shows it | evidently intended | confidence | as-written member | corrected member |
|---|---|---|---|---|---|---|
| src/utils/douyu_ex_websocket.ts:106 | A lead byte with k leading ones keeps its low k+1 bits (`slice(7 - bytesLength)`). For a 2-byte sequence that is 3 bits, not the 5 payload bits `stringToByte` wrote, so units 0x200..0x7FF lose their high bits. | `"Ѐ"` encodes to D0 80, which decodes to `"\u0000"` | Keep the 7-k payload bits (`slice(bytesLength + 1)`), so that `byteToString(stringToByte(s)) == s` for every string | not executed | `Transcoder.TwoByteUnitLost` | `Transcoder.PayloadRoundTrip` |

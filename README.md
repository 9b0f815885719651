# TectonicDB Python client: framing and session, in Dafny

The TectonicDB Python client (`cli/python/tectonic.py`) talks to a tick-data
server over a stream socket. Each command is a line of text. The client
sends the command with one trailing newline. The server answers with a frame:
a 9-byte header (a success byte, then an 8-byte big-endian unsigned body
length, Python's struct format `'>?Q'`), then exactly that many body bytes.
`TectonicDB.cmd` runs one such cycle. It reads the header in a loop until 9
bytes are held. It returns at once when the length is 0. Otherwise it reads
the body: first one byte, then at most 32 bytes per call, until exactly the
declared length is held. The session methods sit on top of `cmd`:

- fixed commands (`info`, `ping`, `clear`, ...);
- formatted commands (`insert`, `add`, `create`, `use`, `get`);
- the `bulkadd` sequence `BULKADD`, one row per update, `DDAKLUB`;
- `subscribe`/`unsubscribe`, which keep a client-side `subscribed` flag;
- `poll`, an empty command;
- `range`.

The model has five modules, one file each:

- `wire.dfy` (`Wire`): bytes and big-endian numbers. It also has the header
  decoder and its encoder, frames at the head of a byte stream, and `Want`,
  the size of the next recv request the read loops issue.
- `commands.dfy` (`Commands`): the command texts, as the format strings build
  them. It also has parsers that read the row format back. The round trips
  show that the text keeps every field and both flags.
- `transport.dfy` (`Transport`): the socket as a class. It holds the bytes the
  server has still to deliver, a chunking oracle that decides how many arrive
  per recv, and one trace of every send and recv call. It also has the
  predicates that say what a command cycle leaves in that trace: `Exchange`,
  `Ran` and `Cycles`.
- `client.dfy` (`Client`): the `TectonicDB` session class. `Cmd` keeps the
  two read loops of the source. The session methods call it.
- `sequences.dfy` (`Sequences`): small facts about sequences that the proofs
  cite.

Every method that runs a command cycle states its effect in terms of the
socket. The cycle adds to the trace exactly the send of `cmd + "\n"`, then
recv calls that follow the request pattern. Those calls collect exactly the
frame at the head of the pending bytes, and that frame, and no byte more, is
consumed (`Ran`). The results are the header's flag and the declared body
(`Answered`). Lemmas on `Ran`, `Exchange` and `Cycles` turn this into the
properties below.

The model follows the code where it departs from what a reader might expect:

- Rows are written `"ts, seq, T ,B, price, size;"`, with the space before the
  comma between the two flags.
- A conforming server writes the flag as 0x00 or 0x01, but the client reads
  any non-zero byte as success.
- A peer that closes early makes the read loops spin; the client raises no
  error. The model requires a whole frame to be pending.
- `range` sends no `USE` (see Findings).

## Model

| member | source | states |
|---|---|---|
| Wire.BigEndianOfToBigEndian | cli/python/tectonic.py:77 | reading the 8 length bytes most significant first inverts writing a length below 2^64 that way |
| Wire.ToBigEndianOfBigEndian | cli/python/tectonic.py:77 | every byte string is the big-endian encoding of the value it reads as |
| Wire.DecodeEncodeHeader | cli/python/tectonic.py:77 | `'>?Q'` decoding of a header written with flag `success` and length `length` gives back both |
| Wire.EncodeDecodeHeader | cli/python/tectonic.py:77 | a header whose flag byte is 0 or 1 is exactly the encoding of its decoded flag and length, so decoding loses nothing |
| Wire.EncodeFrameRead | cli/python/tectonic.py:77-89 | a frame a server writes, followed by anything, is recognised as the first frame, with its flag and exactly its body |
| Wire.DecodeHeaderLength | cli/python/tectonic.py:77 | `'>?Q'` decoding: success exactly when byte 0 is non-zero, and the length is the number whose 8-byte big-endian writing is bytes 1..8 |
| Wire.Want | cli/python/tectonic.py:71-88 | the next request: 9 - held in the header, 1 first in the body, min(missing, 32) after, 0 exactly when the frame is complete, never past it |
| Commands.RowCommands | cli/python/tectonic.py:122-128 | one row command per update, in input order, each the row text of its update |
| Commands.BulkAddCommands | cli/python/tectonic.py:121-130 | `bulkadd` issues `BULKADD`, the rows in order, then `DDAKLUB`: |updates| + 2 commands, so an empty list gives only the two markers |
| Commands.ParseRowText | cli/python/tectonic.py:109-128 | the row format with flags written 't'/'f' and the " ," quirk reads back as the same update whenever the fields hold no ',' or ';' |
| Commands.RowTextOfParseRow | cli/python/tectonic.py:109-128 | conversely, any text the row parser accepts is exactly the row text of what it parsed, so the format is a bijection on plain rows |
| Commands.ParseAddText | cli/python/tectonic.py:116-120 | the `add` command text reads back as its update |
| Commands.ParseInsertText | cli/python/tectonic.py:109-114 | the `insert` command text reads back as its update and its store name |
| Transport.Socket.Recv | cli/python/tectonic.py:71-88 | a recv returns the next pending bytes, never more than it asked for and at least one while any are pending, and records itself in the trace |
| Transport.Socket.SendAll | cli/python/tectonic.py:69 | a send records its whole message in the trace and reads nothing |
| Transport.ValidReadsPrefix | cli/python/tectonic.py:71-88 | the read loops never run past the frame: what they hold is always a prefix of it |
| Transport.CompleteReadsFrame | cli/python/tectonic.py:71-89 | once the loops stop they hold exactly 9 + N bytes, the whole frame, never more and never fewer |
| Transport.ReadRequests | cli/python/tectonic.py:71-88 | every recv call of a cycle follows the request pattern: 9 - held bytes in the header loop, 1 byte first in the body, min(N - got, 32) later, always 1 to 32 bytes |
| Transport.ZeroLengthNoBodyRead | cli/python/tectonic.py:78-79 | a header that declares an empty body is answered with no body read: every recv of the cycle is a header read |
| Transport.ExchangeMeaning | cli/python/tectonic.py:62-89 | one command cycle sends exactly `cmd + "\n"` and reads exactly its response frame |
| Transport.CyclesMeaning | cli/python/tectonic.py:121-130 | command cycles run one after the other send exactly their commands' lines, in order, and read exactly their frames end to end, each drained before the next send |
| Transport.RanSnoc | cli/python/tectonic.py:121-130 | one more command cycle after a run of cycles extends the trace, the frames read and the commands by exactly that cycle |
| Client.ReplaySubscribed | cli/python/tectonic.py:160-168 | after any series of subscribe replies and unsubscribes the flag is set exactly when some successful SUBSCRIBE has no UNSUBSCRIBE after it, or it started set and was never cleared |
| Client.TectonicDB.constructor | cli/python/tectonic.py:53-60 | a session over an open connection starts unsubscribed |
| Client.TectonicDB.Cmd | cli/python/tectonic.py:62-89 | sends `cmd + "\n"`, consumes exactly the frame at the head of the pending bytes through reads that follow the request pattern, and returns the header's flag and exactly the declared body (empty when the length is 0) |
| Client.TectonicDB.RecvNext | cli/python/tectonic.py:74 | one recv call of the read loops, asking for what they want, returns between one byte and what it asked for, the next bytes of the frame, and extends the cycle's valid reads |
| Client.TectonicDB.RecvHeader | cli/python/tectonic.py:71-75 | the header loop ends holding exactly the first 9 pending bytes, through valid reads |
| Client.TectonicDB.RecvBody | cli/python/tectonic.py:81-88 | the body loop, given a non-zero length, ends holding exactly the declared body bytes, through valid reads |
| Client.TectonicDB.Info | cli/python/tectonic.py:94-95 | one cycle of `INFO` |
| Client.TectonicDB.CountAll | cli/python/tectonic.py:97-98 | one cycle of `COUNT ALL` |
| Client.TectonicDB.CountAllInMem | cli/python/tectonic.py:100-101 | one cycle of `COUNT ALL IN MEM` |
| Client.TectonicDB.Ping | cli/python/tectonic.py:103-104 | one cycle of `PING` |
| Client.TectonicDB.Help | cli/python/tectonic.py:106-107 | one cycle of `HELP` |
| Client.TectonicDB.Clear | cli/python/tectonic.py:142-143 | one cycle of `CLEAR` |
| Client.TectonicDB.ClearAll | cli/python/tectonic.py:145-146 | one cycle of `CLEAR ALL` |
| Client.TectonicDB.Flush | cli/python/tectonic.py:148-149 | one cycle of `FLUSH` |
| Client.TectonicDB.FlushAll | cli/python/tectonic.py:151-152 | one cycle of `FLUSH ALL` |
| Client.TectonicDB.Poll | cli/python/tectonic.py:170-171 | one cycle of the empty command |
| Client.PollSendsNewline | cli/python/tectonic.py:65-69 | `poll` sends a bare newline and nothing else |
| Client.TectonicDB.Create | cli/python/tectonic.py:154-155 | one cycle of `CREATE <dbname>` |
| Client.TectonicDB.Use | cli/python/tectonic.py:157-158 | one cycle of `USE <dbname>` |
| Client.TectonicDB.Insert | cli/python/tectonic.py:109-114 | one cycle of the `insert` text, which reads back as its update and store (ParseInsertText) |
| Client.TectonicDB.Add | cli/python/tectonic.py:116-120 | one cycle of the `add` text, which reads back as its update (ParseAddText) |
| Client.TectonicDB.Get | cli/python/tectonic.py:135-140 | one cycle of `GET <n> AS JSON`; no value exactly when the header reports failure, the declared body otherwise |
| Client.TectonicDB.Subscribe | cli/python/tectonic.py:164-168 | one cycle of `SUBSCRIBE <dbname>`; the flag becomes true on success and is unchanged on failure; the raw response is returned |
| Client.TectonicDB.Unsubscribe | cli/python/tectonic.py:160-162 | one cycle of `UNSUBSCRIBE`; the flag is cleared whatever the response says |
| Client.TectonicDB.CmdInSequence | cli/python/tectonic.py:121-130 | one more cycle after a run of cycles extends the run by that command and its frame and leaves one frame fewer pending |
| Client.TectonicDB.BulkAdd | cli/python/tectonic.py:121-130 | the trace grows by exactly the cycles of `BULKADD`, the rows in input order and `DDAKLUB`; exactly those lines are sent, and each response is drained before the next send |
| Client.TectonicDB.Range | cli/python/tectonic.py:173-177 | one cycle of `GET ALL FROM <start> TO <finish> AS CSV`; returns the response body |
| Client.RangeWithoutUse | cli/python/tectonic.py:173-177 | as written, `range` sends the GET line alone, and no `USE` line of any store name |
| Client.TectonicDB.RangeIn | cli/python/tectonic.py:173-177 | the intended range query: a `USE <dbname>` cycle, then the GET cycle, returning the body of the second response |

## Left out

- Socket setup and teardown (`__init__`'s connect, `destroy`): OS I/O. The session is given an open `Socket`.
- The un-awaited `loop.sock_sendall` at line 69: from Python 3.7 on it is a coroutine, and un-awaited it sends nothing, as with `self.use` in `range`. The model assumes the send happens at once, as the method did before 3.7, and leaves the event loop out.
- A peer that closes or stops sending: recv then returns nothing and the source loops spin forever. Every cycle requires a whole frame to be pending, and `BulkAdd`/`RangeIn` require one per command.
- Client.TectonicDB.Cmd: takes the command as text only. The bytes branch of `cmd` decodes and re-encodes to the same line, and UTF-8 encoding is not modelled: commands are sequences of characters.
- Client.TectonicDB.Cmd: the zero-length case returns the empty `str` `""` rather than empty bytes. The model returns an empty byte sequence.
- Numbers are taken as already-rendered text: Python's `{}` formatting of floats and ints is not modelled. The parsers need the rendered fields to hold no ',' or ';' (`Plain`).
- Client.TectonicDB.Get: returns the raw body where the source returns `json.loads` of it. JSON parsing is an external library, and its error on a non-JSON body is not modelled.
- `getall`: it passes the `(success, body)` tuple to `json.loads`, which is a type error in every run. Only its command text would be left to model.
- `measure_latency`, `insert_n` and the docstring's subscribe example: timing, threading and demos, not client logic.
- The poll result sentinel `NONE`: it is the server's convention for an empty poll, so it plays no part in the client's code.
- `src/bin/gen_train_data/record.rs` is not part of this model: it allocates floating-point training data.

## Findings

| source | as written | input that shows it | evidently intended | confidence | as-written member | corrected member |
|---|---|---|---|---|---|---|
| cli/python/tectonic.py:174 | `self.use(dbname)` is called without `await`, so the coroutine never runs and no `USE` line is sent. `dbname` has no effect. | `range("btc", 0, 10)` on a session whose current store is another: only `GET ALL FROM 0 TO 10 AS CSV` goes out, and it answers from the other store | send `USE btc`, drain its response, then send the GET | not executed | Client.RangeWithoutUse | Client.TectonicDB.RangeIn |

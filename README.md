# redirs core, modelled in Dafny

This project models the sequential core of `redirs`. `redirs` is a small Redis-compatible server written in Rust. The model covers three pieces:

- **The wire codec.** This is the `Value` tagged union (simple string, bulk string, integer, array, error, null). `write_value` writes a value in RESP2 framing: `+`, `$` (with `$-1` for null), `:`, `*` and `-`. `read_value` reads one value back from a buffered stream. The model also covers the error type these two return.
  - The encoder is a function `Encode`. `WriteValue` appends to a byte sink, piece by piece, exactly the bytes `Encode` gives.
  - The decoder is a function `Decode` over a byte sequence and a position. `Reader.ReadValue` advances a position field and returns exactly what `Decode` returns.
  - The decoder's quirks are kept as written:
    - any negative bulk length reads as null;
    - a negative array count reads as an empty array;
    - the two bytes after a bulk payload are skipped unchecked;
    - a line loses its last two bytes whatever they are;
    - the `-` tag is not implemented (`todo!()`), so error replies do not round-trip.
- **The store and the session** (`src/db/db.rs`, `src/db/command.rs`).
  - The store holds between 1 and 16 byte-string maps.
  - A session keeps the index of the selected map.
  - The command table is keyed by upper-cased names.
  - `handle_request` checks the request's shape and routes it to the COMMAND, SELECT, GET or SET handler. Every failure becomes an `Err("ERR", message)` reply.
  - Each handler is a function on a `Store`, the maps plus the selected index. Each is also a method on the `Session` class that changes its fields in place and is proved to agree with the function.
  - A database handle (`Arc<RwLock<InternalDb>>`) is the index of that database.
- **The earlier draft of the store** (`src/db.rs`). It has its own module. In this version:
  - a database count of 0 means 16, and there is no upper bound;
  - only COMMAND, with a fixed reply, and SELECT are known;
  - SELECT calls non-UTF-8 text an invalid index.

The modules are:
- `Text`: decimal formatting and `parse::<i64>`, UTF-8 well-formedness, and ASCII upper-casing.
- `Errors`: `src/error.rs`.
- `Values`: `src/value.rs`.
- `Db`: `src/db/`.
- `DraftDb`: `src/db.rs`.

Two behaviours of the code a reader might not expect, kept as written:
- A negative bulk length other than -1 is read as null. It is not rejected.
- SELECT with an argument that is not UTF-8 fails with "DB index is out of range", not with "invalid DB index".

## Model

| member | source | states |
|---|---|---|
| Errors.FromIo | src/error.rs:22-29 | an io error becomes `Eof` exactly when its kind is `UnexpectedEof`; every other io error is kept as `Io` |
| Errors.FromUtf8 | src/error.rs:31-35 | a UTF-8 failure is a `ParseError` |
| Errors.FromParseInt | src/error.rs:37-41 | an integer parse failure is a `ParseError` |
| Errors.Display | src/error.rs:12-20 | `Eof` shows as "Client disconnected", `ParseError` as "Cannot parse the binary value", an io error as the bytes of its own text |
| Values.IntoString | src/value.rs:36-40 | the bytes come back unchanged exactly when they are valid UTF-8; otherwise the result is a `ParseError` |
| Values.ErrValue | src/value.rs:21-23 | `Value::err(m)` is an error reply whose code is `ERR` and whose message is m |
| Values.ErrValueBytes | src/value.rs:21-23 | `Value::err(m)` is written as `-ERR ` then m then CRLF: the code is always `ERR` |
| Values.Encode | src/value.rs:64-105 | every value's bytes are non-empty and begin with the tag byte of its kind; a null begins with `$`, like a bulk string |
| Values.EncodeAll | src/value.rs:88-90 | the elements' encodings, back to back, take at least one byte per element |
| Values.WriteValue | src/value.rs:64-105 | writing a value appends exactly `Encode(v)` to the sink: `+b\r\n`, `$len\r\nb\r\n`, `:n\r\n`, `*count\r\n` then the elements, `-code msg\r\n`, `$-1\r\n` |
| Values.WriteBulk | src/value.rs:72-78 | a bulk string is its decimal length, CRLF, the payload and CRLF |
| Values.WriteArray | src/value.rs:84-91 | an array is its decimal count and CRLF, then the elements' encodings |
| Values.WriteElements | src/value.rs:88-90 | the loop over array elements appends their encodings in order |
| Values.EncodeAllAppend | src/value.rs:88-90 | the encoding of a sequence with one more element is the old encoding followed by that element's |
| Values.NullBytes | src/value.rs:99-101 | null is written as `$`, the number -1 and CRLF |
| Values.ShortReadIsEof | src/value.rs:125-126 | where `read_exact` runs out of input, the decoder fails with what `From<io::Error>` makes of the short read: at the tag byte, and in a bulk payload longer than what remains |
| Values.LineEnd | src/value.rs:113 | `read_until` stops just past the first newline, or at the end of the stream when there is none |
| Values.DropTwo | src/value.rs:114-115 | the two `pop()`s remove the last two bytes, whatever they are, and keep the rest as a prefix |
| Values.NumberLine | src/value.rs:111-118 | every failure to read a number line (not UTF-8, or not a decimal i64) is `ParseError` |
| Values.Reader.ReadNumber | src/value.rs:111-118 | reads one line, drops its last two bytes, parses the rest as an i64, and leaves the position after the line |
| Values.Reader.ReadValue | src/value.rs:124-163 | reading a value gives exactly `Decode` of the stream at the old position, and leaves the position just after the value |
| Values.Reader.ReadBulk | src/value.rs:136-146 | the `$` arm agrees with `DecodeBulk`: a negative length is null, otherwise that many bytes and two skipped |
| Values.Reader.ReadArray | src/value.rs:151-158 | the `*` arm agrees with `DecodeArray` |
| Values.Reader.ReadElements | src/value.rs:153-156 | the element loop reads `count` values in order, stopping at the first failure, and agrees with `DecodeElems` |
| Values.Decode | src/value.rs:124-163 | a decoded value consumes at least its tag byte and never goes past the end of the input |
| Values.DecodeSimple | src/value.rs:129-135 | the `+` arm always succeeds and ends inside the stream |
| Values.DecodeBulk | src/value.rs:136-146 | a successful `$` arm ends inside the stream |
| Values.DecodeInteger | src/value.rs:147-150 | a successful `:` arm ends inside the stream |
| Values.DecodeArray | src/value.rs:151-158 | a successful `*` arm ends inside the stream |
| Values.DecodeElems | src/value.rs:152-157 | reading `count` values yields exactly `count` of them, or none when the count is negative |
| Values.RoundTrip | src/value.rs:174-230 | decoding the encoding of a decodable value, followed by anything, gives the value back and consumes exactly its bytes |
| Values.ReadInOrder | src/value.rs:151-157 | values written back to back are read back in the order written |
| Values.ErrNotDecodable | src/value.rs:159 | an error reply's bytes hit the unimplemented `-` tag |
| Values.NegativeLengthIsNull | src/value.rs:137-139 | every negative bulk length, not only -1, reads as null right after the length line |
| Values.NegativeCountIsEmpty | src/value.rs:152-157 | a negative array count reads as an empty array |
| Values.BlobTrailerUnchecked | src/value.rs:141-144 | a bulk payload is read by its length, and the two bytes after it are skipped whatever they are |
| Values.SimpleTerminatorUnchecked | src/value.rs:130-133 | a simple string loses the two bytes before the newline, whatever the first is |
| Values.NumberTerminatorUnchecked | src/value.rs:112-117 | a number line loses the two bytes before the newline, whatever the first is |
| Values.DecodeFailures | src/value.rs:124-159 | end of input at the tag gives `Eof`; a length or number line that is not a decimal i64 gives `ParseError`; any other tag is unsupported |
| Values.SimpleCase | src/value.rs:175-178 | `Simple("somesimplestring")` is written as `+somesimplestring\r\n` |
| Values.BlobCase | src/value.rs:179-182 | `Blob("somesimplestring")` is written as `$16\r\nsomesimplestring\r\n` |
| Values.NumberCases | src/value.rs:183-185 | -1, 0 and 12912 are written as `:-1\r\n`, `:0\r\n`, `:12912\r\n` |
| Values.ArrayCase | src/value.rs:186-193 | the three-element test array is written as `*3\r\n+loremipsum\r\n$11\r\ndoscolorsit\r\n:123\r\n` |
| Values.DeserializeSimple | src/value.rs:206-209 | `+somesimplestring\r\n` reads as the simple string, consuming all 19 bytes |
| Values.DeserializeBlob | src/value.rs:210-213 | `$16\r\nsomesimplestring\r\n` reads as the bulk string, consuming all 23 bytes |
| Values.DeserializeNumbers | src/value.rs:214-216 | the three number lines read as -1, 0 and 12912 |
| Values.DeserializeArray | src/value.rs:217-224 | the test array's bytes read as the three-element array, consuming all 41 bytes |
| Values.ReadBack | src/value.rs:227-230 | reading a decodable value's bytes from the start gives the value back and consumes them all |
| Text.ParseI64 | src/value.rs:117 | text that parses is a sign or a digit, then digits only; the value is an i64 |
| Text.FormatInt | src/value.rs:74 | `format!` writes a minus sign exactly for a negative number, and a digit otherwise |
| Text.Utf8Lead | src/value.rs:38 | valid UTF-8 starts with an ASCII byte or a lead byte from C2 to F4, never with a continuation byte |
| Text.Upper | src/db/db.rs:97 | upper-casing keeps the length, leaves no ASCII lower-case letter, keeps every other byte, and maps a to A through z to Z |
| Text.ParseFormatInt | src/value.rs:117 | parsing the decimal text `format!` prints for an i64 gives the number back |
| Text.UpperIdentifiesCase | src/db/db.rs:97 | two names upper-case to the same text exactly when they differ only in the case of ASCII letters |
| Text.CaseKeepsUtf8 | src/db/db.rs:90-97 | changing the case of ASCII letters does not change whether a name is valid UTF-8 |
| Db.GetCommands | src/db/command.rs:30-69 | the four commands COMMAND, SELECT, GET and SET, in that order, each paired with its own handler |
| Db.Registry | src/db/db.rs:56-59 | the handler table's keys are exactly the upper-cased spec names |
| Db.RegistryValues | src/db/db.rs:56-59 | with distinct names, each upper-cased name maps to its own spec |
| Db.CommandTable | src/db/command.rs:30-69 | the session's table holds COMMAND, SELECT, GET and SET, each mapped to its spec from `get_commands` |
| Db.TableSize | src/db/command.rs:30-69 | the table has four entries |
| Db.DatabaseCount | src/db/db.rs:16 | the count is between 1 and 16: the configured value when it is in range, else the nearer bound |
| Db.AsUsize | src/db/db.rs:24 | `as usize` keeps a non-negative index and wraps a negative one to at least 2^63 |
| Db.DbIndex | src/db/db.rs:23-25 | the lookup finds a database exactly when 0 <= index < count, and then it is that index |
| Db.InternalDb.constructor | src/db/db.rs:32-37 | a new database is empty |
| Db.Database.constructor | src/db/db.rs:15-21 | `clamp(databases, 1, 16)` distinct, fresh, empty databases |
| Db.Database.Maps | src/db/db.rs:10-12 | one map per database, in order |
| Db.Database.Get | src/db/db.rs:23-25 | a handle exists exactly for 0 <= index < count, negative indices included, and it is that index |
| Db.SessionFactory.constructor | src/db/db.rs:51-53 | the factory holds the given database |
| Db.SessionFactory.CreateSession | src/db/db.rs:55-66 | a new session has the full handler table and selects database 0 |
| Db.Session.constructor | src/db/db.rs:61-65 | the session starts on the first database |
| Db.StringArg | src/db/command.rs:123-126 | only a simple or bulk string yields its bytes |
| Db.Entry | src/db/command.rs:77-89 | an entry has six fields: the name as a simple string first, and the flags as simple strings in order |
| Db.Listing | src/db/command.rs:71-93 | at most one entry per key of the iteration order |
| Db.Session.HandleCommand | src/db/command.rs:71-93 | the reply is one entry per handler, in the map's iteration order |
| Db.ListingCoversHandlers | src/db/command.rs:71-93 | if the iteration order lists every key once, there are as many entries as handlers, and each handler's entry is present |
| Db.CommandListing | src/db/command.rs:71-93 | for the session's table, COMMAND lists exactly four entries, one per spec of `get_commands` |
| Db.TargetIndex | src/db/command.rs:98-110 | no argument is the arity error; a number is itself; a string goes through `TextIndex`; any other value is an invalid index |
| Db.TextIndex | src/db/command.rs:104-108 | text that is not UTF-8 is out of range; UTF-8 text that does not parse is an invalid index; otherwise the parsed number |
| Db.Select | src/db/command.rs:95-115 | SELECT never changes the maps, keeps the selection on failure, and answers `OK` on success |
| Db.Session.HandleSelect | src/db/command.rs:95-115 | the handler updates the selected index as `Select` says and keeps the session valid |
| Db.SelectNumber | src/db/command.rs:112-114 | a number selects database n exactly when 0 <= n < count; otherwise "DB index is out of range" and no change |
| Db.SelectText | src/db/command.rs:102-110 | decimal text, simple or bulk, selects the same database as the number |
| Db.SelectReasons | src/db/command.rs:98-112 | "wrong number of arguments" exactly with no argument; "invalid DB index" exactly for a non-string tag or unparseable UTF-8 text; non-UTF-8 text is "out of range"; a refusal changes nothing |
| Db.SelectBounds | src/db/command.rs:95-115 | with four databases, `SELECT 3` is OK, `SELECT 4` is out of range, `SELECT abc` is an invalid index |
| Db.Session.HandleGet | src/db/command.rs:117-136 | the handler answers as `Get` on the current store and changes nothing |
| Db.Get | src/db/command.rs:117-136 | GET fails only with the arity or the invalid-key message, and succeeds with a bulk string or null |
| Db.GetReasons | src/db/command.rs:117-136 | "wrong number of arguments" exactly with no key, "invalid key" exactly for a non-string key; otherwise the stored value as a bulk string when the key is in the selected map, and null exactly when it is not |
| Db.GetOnFreshDatabase | src/db/command.rs:128-135 | on a database just created, every GET of a string key answers null, whichever database is selected |
| Db.Set | src/db/command.rs:138-166 | SET keeps the selection and the number of databases, changes nothing when it fails, and answers `OK` |
| Db.Session.HandleSet | src/db/command.rs:138-166 | the handler updates the selected database in place as `Set` says |
| Db.SetReasons | src/db/command.rs:139-156 | the four checks in order: missing key, non-string key, missing value, non-string value; success exactly when both are strings |
| Db.SetFrame | src/db/command.rs:158-165 | SET overwrites only its key in the selected map; other keys and other databases are unchanged |
| Db.GetAfterSet | src/db/command.rs:158-165 | GET of the key just set returns the value as a bulk string |
| Db.GetOtherAfterSet | src/db/command.rs:158-163 | GET of any other key is unaffected by a SET |
| Db.SetIdempotent | src/db/command.rs:158-163 | repeating a SET changes nothing more |
| Db.Execute | src/db/db.rs:109 | every handler keeps the store valid and the number of databases |
| Db.Reply | src/db/db.rs:109 | a handler's value is the reply; a handler's failure s is the reply `Err("ERR", s)` |
| Db.RouteOf | src/db/db.rs:71-107 | a request reaches a handler exactly when it is a non-empty array whose first element is a UTF-8 string naming a registered command in upper case; the handler gets the remaining elements; every other request gets an error reply with code `ERR` |
| Db.Dispatch | src/db/db.rs:70-110 | every request gets one reply and keeps the store valid; a request rejected before any handler changes nothing |
| Db.Session.HandleRequest | src/db/db.rs:70-110 | the session's new state and reply are those of `Dispatch` |
| Db.MalformedRequests | src/db/db.rs:71-93 | the replies to a non-array, an empty array, a non-string command and a non-UTF-8 command, none of which changes the store |
| Db.ErrorsChangeNothing | src/db/db.rs:70-110 | every error reply has code `ERR`, and a request answered with an error leaves all maps and the selection unchanged |
| Db.DispatchIgnoresCase | src/db/db.rs:97-98 | two command names that differ only in ASCII case get the same reply and the same new store |
| Db.UnknownCommands | src/db/db.rs:98-107 | a name that is none of the four gets "unknown command `NAME`, with args beginning with: " and the first argument, or null |
| Db.RoutedByName | src/db/db.rs:95-99 | a UTF-8 name whose upper case is registered routes to its spec with the remaining elements as arguments |
| Db.KnownCommand | src/db/db.rs:97-109 | a registered name, in any case, runs that handler and replies with its outcome |
| Db.SetThenGetRequests | src/db/command.rs:138-166 | through the session's table, `SET k v` answers OK and a following `GET k` answers v |
| DraftDb.DatabaseCount | src/db.rs:14-18 | 0 means 16, a positive count is kept with no upper bound, and a negative count gives no databases |
| DraftDb.InternalDb.constructor | src/db.rs:167-173 | a new database is empty |
| DraftDb.Database.constructor | src/db.rs:13-25 | that many distinct, fresh, empty databases |
| DraftDb.Database.Get | src/db.rs:27-29 | a handle exists exactly for 0 <= index < count, and it is that index |
| DraftDb.Database.CreateSession | src/db.rs:31-37 | a new session selects database 0 |
| DraftDb.Session.constructor | src/db.rs:33-36 | the session starts on the first database |
| DraftDb.ParseRequest | src/db.rs:47-72 | a request gets past the shape checks exactly when it is a non-empty array whose first element is a UTF-8 string; the name is upper-cased and the rest are the arguments; other requests get an error reply with code `ERR` |
| DraftDb.Listing | src/db.rs:85-131 | the fixed reply has four entries of six fields each |
| DraftDb.SelectCommand | src/db.rs:134-160 | a failed SELECT keeps the selection; a successful one answers `OK` |
| DraftDb.Respond | src/db.rs:46-82 | the selection stays in range, and a request rejected by shape changes nothing |
| DraftDb.Session.HandleRequest | src/db.rs:46-82 | the session's new selection and reply are those of `Respond` |
| DraftDb.Session.HandleCommandCommand | src/db.rs:84-132 | the reply is the fixed table |
| DraftDb.Session.HandleSelectCommand | src/db.rs:134-160 | the handler updates the selection as `SelectCommand` says |
| DraftDb.ListingAgreesWithTable | src/db.rs:84-132 | the fixed table describes COMMAND, GET, SET, SELECT in that order, as the later `get_commands` does, except SELECT's arity is 2 |
| DraftDb.OnlyTwoCommands | src/db.rs:73-81 | any name other than COMMAND and SELECT, after upper-casing, gets the unknown-command reply and keeps the selection |
| DraftDb.GetAndSetUnknown | src/db.rs:73-81 | GET and SET are not among the draft's names |
| DraftDb.RespondIgnoresCase | src/db.rs:73 | names that differ only in ASCII case get the same reply |
| DraftDb.CommandRequest | src/db.rs:73-74 | COMMAND, in any case, answers with the fixed table |
| DraftDb.MalformedRequests | src/db.rs:47-69 | shape errors give the same replies as the later session, and change nothing |
| DraftDb.SelectNumber | src/db.rs:153-159 | a number selects database n exactly when 0 <= n < count; otherwise "DB index is out of range" and no change |
| DraftDb.SelectText | src/db.rs:141-149 | decimal text selects the same database as the number |
| DraftDb.SelectReasons | src/db.rs:135-151 | "wrong number of arguments" exactly with no argument; "invalid DB index" exactly for a non-number that is not UTF-8 decimal text |
| DraftDb.Utf8ErrorDiffers | src/db.rs:143-148 | non-UTF-8 text is an invalid index in the draft, but out of range in the later SELECT |

## Left out

- `src/server.rs` is not part of this model. It covers TCP accept, one thread per client and logging. Its loop reads a request, calls `handle_request` and writes the reply. It stops on `Eof`, on any other read error and on any write error.
- `src/bufstream.rs` is not part of this model. It is a wrapper over the standard buffered reader and writer. The codec reads a plain byte sequence, and at the end of input `read_until` returns the partial line.
- Values.DecodeBulk: after a payload the model skips two bytes, or fewer when fewer remain (`Min(line + n + 2, |s|)`). This is the model's own choice, and it differs from both readers the source uses:
  - `BufReader::consume` can skip only what is already buffered, so a trailer that has not arrived stays in the stream, and the next `read_value` reads `\r` as a tag and reaches `todo!()`;
  - the `&[u8]` reader of the tests panics when fewer than two bytes remain.
- Values.Decode: a bulk length larger than the remaining bytes is the `Eof` error. The source first allocates `num as usize` bytes (src/value.rs:141), and a length too large to allocate aborts the process. The model does not capture that abort.
- Values.Decode: `read_value` recurses once per level of array nesting (src/value.rs:155), so very deep nesting overflows the stack and aborts. The model's recursion has no depth limit.
- Values.WriteValue: `write_value` also recurses once per level of nesting (src/value.rs:89), with the same stack-overflow abort. The model does not capture it.
- `src/client.rs` (an unfinished stub) and the two programs under `src/bin/` are not part of this model.
- `Arc`, `RwLock` and `Mutex` sharing is left out. Each database is a map reached by its index, and races between sessions are left out. A poisoned lock would panic, and that is not modelled either.
- The configuration type is not part of this model. `databases` is taken as an integer.
- How `{:?}` and `{}` print a `Value` is not modelled. Both are the derived `Debug` text, and they appear inside error messages; the model passes that text in as a parameter `show`.
- Db.Session.HandleCommand: the order of COMMAND's entries follows the handler map's iteration order. The model takes that order as a parameter listing the keys. `Db.ListingCoversHandlers` assumes it lists every key once.
- Values.WriteValue: write and flush failures of the sink are not modelled. The sink appends every byte it is given, so `write_value` always succeeds.
- Values.Decode: a `todo!()` panic on an unknown tag is the outcome `Unsupported(tag)`, not a crash. The io errors of the underlying stream are not modelled; the stream is a byte sequence.
- Text.Upper: `to_uppercase` is modelled on ASCII letters only. Upper-casing other Unicode characters is left out.
- Text.ParseI64: models `parse::<i64>` as an optional sign, then at least one decimal digit, within the i64 range. A leading `+` is accepted, as in Rust.
- Db.AsUsize: assumes a 64-bit target for the `as usize` cast.
- DraftDb.Database.CreateSession: requires at least one database. With none, `first().unwrap()` panics (src/db.rs:32). `DraftDb.DatabaseCount` yields none for a negative count, and the model has no panic outcome for that case.
- DraftDb.Database.Get: states the exact range only for vectors of at most 2^63 databases, the most a `Vec` can hold.
- Errors.Display: the io error's text is carried as the bytes it displays as. Its wording belongs to the standard library.

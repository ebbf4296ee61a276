/**
 * The wire value and its codec: `Value`, the encoder that appends a value's
 * bytes to a sink (RESP2 framing: `+` simple strings, `$` bulk strings with
 * `$-1` for null, `:` integers, `*` arrays, `-` errors), and the decoder
 * that reads one value back from a byte stream, quirks included.
 */
module Values {
  import opened Text
  import opened Errors

  datatype Value =
    | Simple(payload: Bytes)
    | Blob(payload: Bytes)
    | Number(n: i64)
    | Array(elems: seq<Value>)
    | Err(code: Bytes, message: Bytes)
    | Null

  const DOLLAR: byte := 36
  const STAR: byte := 42
  const COLON: byte := 58

  /** `Value::err`: an error reply with the generic code. */
  function ErrValue(message: Bytes): (v: Value)
    ensures v.Err? && v.code == Str("ERR") && v.message == message
  {
    Err(Str("ERR"), message)
  }

  /** `Bytes::into_string`: the same bytes as text, or a parse error when they are not UTF-8. */
  function IntoString(b: Bytes): (r: Result<Bytes>)
    ensures r.Ok? <==> ValidUtf8(b)
    ensures r.Ok? ==> r.value == b
    ensures r.Failure? ==> r.error == ParseError
  {
    if ValidUtf8(b) then Ok(b) else Failure(FromUtf8(Utf8Error(b)))
  }

  // ---------------------------------------------------------------------
  // Encoding

  /** `$-1\r\n`, the null bulk string. */
  const NULL_BULK: Bytes := [DOLLAR, MINUS, ZERO + 1, CR, NEWLINE]

  /** The first byte `write_value` writes for a value; a null is written as a bulk string. */
  function Tag(v: Value): byte
  {
    match v
    case Simple(_) => PLUS
    case Blob(_) => DOLLAR
    case Number(_) => COLON
    case Array(_) => STAR
    case Err(_, _) => MINUS
    case Null => DOLLAR
  }

  /** The bytes `write_value` produces for a value: its tag byte first. */
  function Encode(v: Value): (r: Bytes)
    ensures |r| > 0 && r[0] == Tag(v)
    decreases v
  {
    match v
    case Simple(b) => [PLUS] + b + CRLF
    case Blob(b) => [DOLLAR] + FormatInt(|b|) + CRLF + b + CRLF
    case Number(n) => [COLON] + FormatInt(n) + CRLF
    case Array(vs) => [STAR] + FormatInt(|vs|) + CRLF + EncodeAll(vs)
    case Err(code, msg) => [MINUS] + code + [SPACE] + msg + CRLF
    case Null => NULL_BULK
  }

  /** The encodings of a sequence of values, one after the other. */
  function EncodeAll(vs: seq<Value>): (r: Bytes)
    ensures |r| >= |vs|
    decreases vs
  {
    if vs == [] then [] else Encode(vs[0]) + EncodeAll(vs[1..])
  }

  lemma {:induction false} EncodeAllAppend(vs: seq<Value>, v: Value)
    ensures EncodeAll(vs + [v]) == EncodeAll(vs) + Encode(v)
    decreases |vs|
  {
    if vs == [] {
      assert [v][1..] == [];
    } else {
      assert (vs + [v])[1..] == vs[1..] + [v];
      EncodeAllAppend(vs[1..], v);
    }
  }

  /** A byte sink (`io::Write`) whose writes append every byte given. */
  class Sink {
    var bytes: Bytes

    constructor ()
      ensures bytes == []
    {
      bytes := [];
    }

    method Write(buf: Bytes)
      modifies this
      ensures bytes == old(bytes) + buf
    {
      bytes := bytes + buf;
    }
  }

  /** `ValueWrite::write_value`: appends the encoding of `v`, piece by piece. */
  method WriteValue(sink: Sink, v: Value)
    modifies sink
    ensures sink.bytes == old(sink.bytes) + Encode(v)
    decreases v, 0
  {
    match v {
      case Simple(b) =>
        sink.Write([PLUS]);
        sink.Write(b);
        sink.Write(CRLF);
        assert sink.bytes == old(sink.bytes) + ([PLUS] + b + CRLF);
      case Blob(b) =>
        WriteBulk(sink, b);
      case Number(n) =>
        sink.Write([COLON]);
        sink.Write(FormatInt(n));
        sink.Write(CRLF);
        assert sink.bytes == old(sink.bytes) + ([COLON] + FormatInt(n) + CRLF);
      case Array(vs) =>
        WriteArray(sink, vs);
      case Err(code, msg) =>
        sink.Write([MINUS]);
        sink.Write(code);
        sink.Write([SPACE]);
        sink.Write(msg);
        sink.Write(CRLF);
        assert sink.bytes == old(sink.bytes) + ([MINUS] + code + [SPACE] + msg + CRLF);
      case Null =>
        sink.Write(NULL_BULK);
    }
  }

  /** The `Blob` arm of `write_value`: length line, payload, line end. */
  method WriteBulk(sink: Sink, b: Bytes)
    modifies sink
    ensures sink.bytes == old(sink.bytes) + Encode(Blob(b))
  {
    sink.Write([DOLLAR]);
    sink.Write(FormatInt(|b|));
    sink.Write(CRLF);
    sink.Write(b);
    sink.Write(CRLF);
    assert sink.bytes == old(sink.bytes) + ([DOLLAR] + FormatInt(|b|) + CRLF + b + CRLF);
  }

  /** The `Array` arm of `write_value`: count line, then each element. */
  method WriteArray(sink: Sink, vs: seq<Value>)
    modifies sink
    ensures sink.bytes == old(sink.bytes) + Encode(Array(vs))
    decreases vs, 1
  {
    sink.Write([STAR]);
    sink.Write(FormatInt(|vs|));
    sink.Write(CRLF);
    WriteElements(sink, vs);
    assert sink.bytes == old(sink.bytes) + ([STAR] + FormatInt(|vs|) + CRLF + EncodeAll(vs));
  }

  /** The loop of `write_value` over the elements of an array, in order. */
  method WriteElements(sink: Sink, vs: seq<Value>)
    modifies sink
    ensures sink.bytes == old(sink.bytes) + EncodeAll(vs)
    decreases vs, 0
  {
    for i := 0 to |vs|
      invariant sink.bytes == old(sink.bytes) + EncodeAll(vs[..i])
    {
      WriteValue(sink, vs[i]);
      WrittenPrefix(old(sink.bytes), vs, i);
    }
    assert vs[..|vs|] == vs;
  }

  /** One more element written extends the written prefix by one. */
  lemma WrittenPrefix(prev: Bytes, vs: seq<Value>, i: nat)
    requires i < |vs|
    ensures prev + EncodeAll(vs[..i]) + Encode(vs[i]) == prev + EncodeAll(vs[..i + 1])
  {
    EncodeAllAppend(vs[..i], vs[i]);
    assert vs[..i + 1] == vs[..i] + [vs[i]];
  }

  // ---------------------------------------------------------------------
  // Decoding

  /**
   * The outcome of reading from position `pos` of a stream: a value and the
   * position just after it, a failure of the error type, or the `todo!()`
   * panic on a tag byte the decoder does not implement.
   */
  datatype Decoded<+T> = Done(value: T, next: nat) | Failed(error: Error) | Unsupported(tag: byte)

  /** What `read_exact` reports when the stream ends too early. */
  const READ_EXACT_EOF: IoError := IoError(UnexpectedEof, Str("failed to fill whole buffer"))

  /**
   * Where `read_exact` runs out of bytes, the decoder fails with what `?`
   * makes of that io error: at the tag byte, and inside a bulk payload
   * longer than what remains.
   */
  lemma ShortReadIsEof(s: Bytes, pos: nat)
    requires pos <= |s|
    ensures Decode(s, |s|) == Failed(FromIo(READ_EXACT_EOF))
    ensures NumberLine(s, pos).Ok? && NumberLine(s, pos).value >= 0 && LineEnd(s, pos) + NumberLine(s, pos).value > |s| ==>
      DecodeBulk(s, pos) == Failed(FromIo(READ_EXACT_EOF))
  {
    assert FromIo(READ_EXACT_EOF) == Eof;
  }

  /**
   * `read_until(b'\n')` from `pos`: the position just past the first newline,
   * or the end of the stream when there is none (which is not an error).
   */
  function LineEnd(s: Bytes, pos: nat): (e: nat)
    requires pos <= |s|
    ensures pos <= e <= |s|
    ensures (pos < e && s[e - 1] == NEWLINE && NEWLINE !in s[pos..e - 1]) || (e == |s| && NEWLINE !in s[pos..])
    decreases |s| - pos
  {
    if pos == |s| then pos
    else if s[pos] == NEWLINE then pos + 1
    else
      var e := LineEnd(s, pos + 1);
      assert s[pos..] == [s[pos]] + s[pos + 1..];
      assert e < |s| || e > pos + 1 ==> s[pos..e - 1] == [s[pos]] + s[pos + 1..e - 1];
      e
  }

  /** Two `pop()`s: the last two bytes go, whatever they are. */
  function DropTwo(line: Bytes): (r: Bytes)
    ensures |r| == if |line| <= 2 then 0 else |line| - 2
    ensures r == line[..|r|]
  {
    if |line| <= 2 then [] else line[..|line| - 2]
  }

  /** `read_number`: one line, minus its last two bytes, read as UTF-8 text and parsed as an i64. */
  function NumberLine(s: Bytes, pos: nat): (r: Result<i64>)
    requires pos <= |s|
    ensures r.Failure? ==> r.error == ParseError
  {
    match IntoString(DropTwo(s[pos..LineEnd(s, pos)]))
    case Failure(e) => Failure(e)
    case Ok(text) =>
      match ParseI64(text)
      case None => Failure(FromParseInt(ParseIntError))
      case Some(n) => Ok(n)
  }

  function Min(a: int, b: int): int
  {
    if a < b then a else b
  }

  /** `ValueRead::read_value` from position `pos`: dispatch on the tag byte. */
  function Decode(s: Bytes, pos: nat): (r: Decoded<Value>)
    requires pos <= |s|
    ensures r.Done? ==> pos < r.next <= |s|
    decreases |s| - pos, 1
  {
    if pos == |s| then Failed(Eof)
    else if s[pos] == PLUS then DecodeSimple(s, pos + 1)
    else if s[pos] == DOLLAR then DecodeBulk(s, pos + 1)
    else if s[pos] == COLON then DecodeInteger(s, pos + 1)
    else if s[pos] == STAR then DecodeArray(s, pos + 1)
    else Unsupported(s[pos])
  }

  /** The `+` arm, after the tag: the rest of the line without its last two bytes. */
  function DecodeSimple(s: Bytes, pos: nat): (r: Decoded<Value>)
    requires pos <= |s|
    ensures r.Done? ==> pos <= r.next <= |s|
  {
    var line := LineEnd(s, pos);
    Done(Simple(DropTwo(s[pos..line])), line)
  }

  /** The `$` arm, after the tag: a length line, then that many bytes and two more skipped; a negative length is Null. */
  function DecodeBulk(s: Bytes, pos: nat): (r: Decoded<Value>)
    requires pos <= |s|
    ensures r.Done? ==> pos <= r.next <= |s|
  {
    var line := LineEnd(s, pos);
    match NumberLine(s, pos)
    case Failure(e) => Failed(e)
    case Ok(n) =>
      if n < 0 then Done(Null, line)
      else if line + n > |s| then Failed(Eof)
      else Done(Blob(s[line..line + n]), Min(line + n + 2, |s|))
  }

  /** The `:` arm, after the tag: one number line. */
  function DecodeInteger(s: Bytes, pos: nat): (r: Decoded<Value>)
    requires pos <= |s|
    ensures r.Done? ==> pos <= r.next <= |s|
  {
    match NumberLine(s, pos)
    case Failure(e) => Failed(e)
    case Ok(n) => Done(Number(n), LineEnd(s, pos))
  }

  /** The `*` arm, after the tag: a count line, then that many values. */
  function DecodeArray(s: Bytes, pos: nat): (r: Decoded<Value>)
    requires pos <= |s|
    ensures r.Done? ==> pos <= r.next <= |s|
    decreases |s| - pos + 1, 0
  {
    match NumberLine(s, pos)
    case Failure(e) => Failed(e)
    case Ok(n) => ArrayOf(DecodeElems(s, LineEnd(s, pos), n))
  }

  /** The elements read, as an array, or the failure unchanged. */
  function ArrayOf(r: Decoded<seq<Value>>): Decoded<Value>
  {
    match r
    case Done(vs, q) => Done(Array(vs), q)
    case Failed(e) => Failed(e)
    case Unsupported(t) => Unsupported(t)
  }

  /** `count` values read one after another (none when `count` is not positive). */
  function DecodeElems(s: Bytes, pos: nat, count: int): (r: Decoded<seq<Value>>)
    requires pos <= |s|
    ensures r.Done? ==> pos <= r.next <= |s|
    ensures r.Done? ==> |r.value| == if count < 0 then 0 else count
    decreases |s| - pos, 2
  {
    if count <= 0 then Done([], pos)
    else
      match Decode(s, pos)
      case Failed(e) => Failed(e)
      case Unsupported(t) => Unsupported(t)
      case Done(v, p) => Prefixed([v], DecodeElems(s, p, count - 1))
  }

  /** `vs` followed by what was read, or the failure unchanged. */
  function Prefixed(vs: seq<Value>, r: Decoded<seq<Value>>): (p: Decoded<seq<Value>>)
    ensures r.Done? ==> p.Done? && p.next == r.next && |p.value| == |vs| + |r.value|
  {
    match r
    case Done(ws, q) => Done(vs + ws, q)
    case Failed(e) => Failed(e)
    case Unsupported(t) => Unsupported(t)
  }

  /** A byte stream read front to back (`io::BufRead` over the bytes `data`). */
  class Reader {
    const data: Bytes
    var pos: nat

    ghost predicate Valid()
      reads this
    {
      pos <= |data|
    }

    constructor (data: Bytes)
      ensures Valid() && this.data == data && pos == 0
    {
      this.data := data;
      pos := 0;
    }

    /** `ValueReadExt::read_number`. */
    method ReadNumber() returns (r: Result<i64>)
      requires Valid()
      modifies this
      ensures Valid()
      ensures r == NumberLine(data, old(pos)) && pos == LineEnd(data, old(pos))
    {
      var e := LineEnd(data, pos);
      var buff := DropTwo(data[pos..e]);
      pos := e;
      var text := IntoString(buff);
      if text.Failure? {
        return Failure(text.error);
      }
      var n := ParseI64(text.value);
      if n.None? {
        return Failure(FromParseInt(ParseIntError));
      }
      r := Ok(n.value);
    }

    /** `ValueRead::read_value`: reads the tag byte and then the rest of one value. */
    method ReadValue() returns (r: Decoded<Value>)
      requires Valid()
      modifies this
      ensures Valid()
      ensures r == Decode(data, old(pos))
      ensures r.Done? ==> pos == r.next
      decreases |data| - pos, 3
    {
      if pos == |data| {
        return Failed(Eof);
      }
      var tag := data[pos];
      pos := pos + 1;
      if tag == PLUS {
        var e := LineEnd(data, pos);
        var buff := DropTwo(data[pos..e]);
        pos := e;
        r := Done(Simple(buff), pos);
      } else if tag == DOLLAR {
        r := ReadBulk();
      } else if tag == COLON {
        var num := ReadNumber();
        if num.Failure? {
          return Failed(num.error);
        }
        r := Done(Number(num.value), pos);
      } else if tag == STAR {
        r := ReadArray();
      } else {
        r := Unsupported(tag);
      }
    }

    /** The `$` arm of `read_value`. */
    method ReadBulk() returns (r: Decoded<Value>)
      requires Valid()
      modifies this
      ensures Valid()
      ensures r == DecodeBulk(data, old(pos))
      ensures r.Done? ==> pos == r.next
    {
      var num := ReadNumber();
      if num.Failure? {
        return Failed(num.error);
      }
      if num.value < 0 {
        return Done(Null, pos);
      }
      if pos + num.value > |data| {
        return Failed(Eof);
      }
      var buff := data[pos..pos + num.value];
      pos := Min(pos + num.value + 2, |data|);
      r := Done(Blob(buff), pos);
    }

    /** The `*` arm of `read_value`. */
    method ReadArray() returns (r: Decoded<Value>)
      requires Valid()
      modifies this
      ensures Valid()
      ensures r == DecodeArray(data, old(pos))
      ensures r.Done? ==> pos == r.next
      decreases |data| - pos + 1, 2
    {
      var num := ReadNumber();
      if num.Failure? {
        return Failed(num.error);
      }
      var values := ReadElements(num.value);
      r := match values
        case Done(vs, q) => Done(Array(vs), q)
        case Failed(e) => Failed(e)
        case Unsupported(t) => Unsupported(t);
    }

    /** The `for _ in 0..num` loop of `read_value`: reads `count` values and pushes them in order. */
    method ReadElements(count: int) returns (r: Decoded<seq<Value>>)
      requires Valid()
      modifies this
      ensures Valid()
      ensures r == DecodeElems(data, old(pos), count)
      ensures r.Done? ==> pos == r.next
      decreases |data| - pos + 1, 1
    {
      var values: seq<Value> := [];
      var i := 0;
      PrefixedNothing(DecodeElems(data, pos, count));
      while i < count
        invariant old(pos) <= pos <= |data|
        invariant 0 <= i
        invariant DecodeElems(data, old(pos), count) == Prefixed(values, DecodeElems(data, pos, count - i))
        decreases count - i
      {
        ghost var before, prefix := pos, values;
        var v := ReadValue();
        if !v.Done? {
          r := if v.Failed? then Failed(v.error) else Unsupported(v.tag);
          ElemsHalt(data, before, count - i, values);
          return;
        }
        values := values + [v.value];
        i := i + 1;
        ElemsAdvance(data, old(pos), before, pos, count, i, prefix, values, v.value);
      }
      assert values + [] == values;
      r := Done(values, pos);
    }
  }

  /** Reading `count` values starting with a value `v` that ends at `q`. */
  lemma ElemsStep(s: Bytes, p: nat, count: int, v: Value, q: nat)
    requires p <= |s| && 0 < count && Decode(s, p) == Done(v, q)
    ensures DecodeElems(s, p, count) == Prefixed([v], DecodeElems(s, q, count - 1))
  {
  }

  /** One turn of the element loop: the value read joins the prefix. */
  lemma ElemsAdvance(s: Bytes, start: nat, p: nat, q: nat, count: int, j: int, vs: seq<Value>, ws: seq<Value>, v: Value)
    requires start <= p <= |s| && j <= count && Decode(s, p) == Done(v, q) && ws == vs + [v]
    requires DecodeElems(s, start, count) == Prefixed(vs, DecodeElems(s, p, count - (j - 1)))
    ensures DecodeElems(s, start, count) == Prefixed(ws, DecodeElems(s, q, count - j))
  {
    ElemsStep(s, p, count - (j - 1), v, q);
    PrefixedAppend(vs, [v], DecodeElems(s, q, count - j));
  }

  /** Reading `count` values stops with the failure of the first value that cannot be read. */
  lemma ElemsHalt(s: Bytes, p: nat, count: int, vs: seq<Value>)
    requires p <= |s| && 0 < count && !Decode(s, p).Done?
    ensures Prefixed(vs, DecodeElems(s, p, count))
         == if Decode(s, p).Failed? then Failed(Decode(s, p).error) else Unsupported(Decode(s, p).tag)
  {
  }

  lemma PrefixedNothing(r: Decoded<seq<Value>>)
    ensures Prefixed([], r) == r
  {
    if r.Done? {
      assert [] + r.value == r.value;
    }
  }

  lemma PrefixedAppend(vs: seq<Value>, ws: seq<Value>, r: Decoded<seq<Value>>)
    ensures Prefixed(vs, Prefixed(ws, r)) == Prefixed(vs + ws, r)
  {
    if r.Done? {
      assert vs + (ws + r.value) == (vs + ws) + r.value;
    }
  }

  // ---------------------------------------------------------------------
  // What the decoder makes of encoded values

  /** The values the decoder reads back: no `-` errors, no newline inside a simple string, lengths that fit an i64. */
  predicate Decodable(v: Value)
    decreases v
  {
    match v
    case Simple(b) => NEWLINE !in b
    case Blob(b) => |b| <= I64_MAX
    case Number(_) => true
    case Array(vs) => |vs| <= I64_MAX && forall i :: 0 <= i < |vs| ==> Decodable(vs[i])
    case Err(_, _) => false
    case Null => true
  }

  /** The bytes `e` occur in `s` at position `pos`. */
  predicate At(s: Bytes, pos: nat, e: Bytes)
  {
    pos + |e| <= |s| && s[pos..pos + |e|] == e
  }

  lemma AtSplit(s: Bytes, pos: nat, a: Bytes, b: Bytes)
    requires At(s, pos, a + b)
    ensures At(s, pos, a) && At(s, pos + |a|, b)
  {
    assert s[pos..pos + |a|] == s[pos..pos + |a + b|][..|a|];
    assert s[pos + |a|..pos + |a| + |b|] == s[pos..pos + |a + b|][|a|..];
  }

  lemma {:induction false} LineEndAt(s: Bytes, pos: nat, k: nat)
    requires pos <= k < |s| && s[k] == NEWLINE
    requires forall i :: pos <= i < k ==> s[i] != NEWLINE
    ensures LineEnd(s, pos) == k + 1
    decreases k - pos
  {
    if pos < k {
      LineEndAt(s, pos + 1, k);
    }
  }

  /** A line `t` ended by any byte other than a newline and then a newline reads back as `t`. */
  lemma LineOf(s: Bytes, pos: nat, t: Bytes, x: byte)
    requires At(s, pos, t + [x, NEWLINE]) && NEWLINE !in t && x != NEWLINE
    ensures LineEnd(s, pos) == pos + |t| + 2
    ensures DropTwo(s[pos..pos + |t| + 2]) == t
  {
    assert forall i :: 0 <= i < |t| + 2 ==> s[pos + i] == (t + [x, NEWLINE])[i];
    LineEndAt(s, pos, pos + |t| + 1);
  }

  /** A decimal i64 in ASCII on a line of its own reads back as that number. */
  lemma NumberLineOf(s: Bytes, pos: nat, f: Bytes, n: i64, x: byte)
    requires At(s, pos, f + [x, NEWLINE]) && x != NEWLINE
    requires ParseI64(f) == Some(n) && forall i :: 0 <= i < |f| ==> f[i] < 128
    ensures LineEnd(s, pos) == pos + |f| + 2
    ensures NumberLine(s, pos) == Ok(n)
  {
    assert NEWLINE !in f;
    LineOf(s, pos, f, x);
    AsciiIsUtf8(f);
  }

  /** What is known of a formatted i64: ASCII text that parses back as the number. */
  lemma Formatted(n: i64)
    ensures ParseI64(FormatInt(n)) == Some(n) && forall i :: 0 <= i < |FormatInt(n)| ==> FormatInt(n)[i] < 128
  {
    FormatIntIsAscii(n);
    ParseFormatInt(n);
  }

  lemma NullBytes()
    ensures Encode(Null) == [DOLLAR] + FormatInt(-1) + CRLF
  {
    assert FormatInt(-1) == [MINUS, ZERO + 1];
  }

  /** A tag byte followed by a number line. */
  lemma HeaderAt(s: Bytes, pos: nat, tag: byte, f: Bytes, n: i64, x: byte)
    requires At(s, pos, [tag]) && At(s, pos + 1, f + [x, NEWLINE]) && x != NEWLINE
    requires ParseI64(f) == Some(n) && forall i :: 0 <= i < |f| ==> f[i] < 128
    ensures Header(s, pos, tag, n, pos + |f| + 3)
  {
    assert s[pos] == tag by {
      assert s[pos..pos + 1][0] == s[pos];
    }
    NumberLineOf(s, pos + 1, f, n, x);
  }

  lemma HeaderSplit(s: Bytes, pos: nat, a: Bytes, b: Bytes, c: Bytes)
    requires At(s, pos, a + b + c)
    ensures At(s, pos, a) && At(s, pos + |a|, b) && At(s, pos + |a| + |b|, c)
  {
    assert a + b + c == a + (b + c);
    AtSplit(s, pos, a, b + c);
    AtSplit(s, pos + |a|, b, c);
  }

  /** The tag byte at `pos` is `tag` and the line after it holds the number `n` and ends at `line`. */
  predicate Header(s: Bytes, pos: nat, tag: byte, n: i64, line: nat)
  {
    pos < |s| && s[pos] == tag && LineEnd(s, pos + 1) == line && NumberLine(s, pos + 1) == Ok(n)
  }

  lemma BulkArm(s: Bytes, pos: nat, b: Bytes, t: Bytes, line: nat)
    requires |b| <= I64_MAX && |t| == 2 && Header(s, pos, DOLLAR, |b|, line) && At(s, line, b + t)
    ensures Decode(s, pos) == Done(Blob(b), line + |b| + 2)
  {
    AtSplit(s, line, b, t);
    assert Decode(s, pos) == DecodeBulk(s, pos + 1);
  }

  lemma NullArm(s: Bytes, pos: nat, n: i64, line: nat)
    requires Header(s, pos, DOLLAR, n, line) && n < 0
    ensures Decode(s, pos) == Done(Null, line)
  {
    assert Decode(s, pos) == DecodeBulk(s, pos + 1);
  }

  lemma IntegerArm(s: Bytes, pos: nat, n: i64, line: nat)
    requires Header(s, pos, COLON, n, line)
    ensures Decode(s, pos) == Done(Number(n), line)
  {
    assert Decode(s, pos) == DecodeInteger(s, pos + 1);
  }

  lemma ArrayArm(s: Bytes, pos: nat, n: i64, line: nat)
    requires Header(s, pos, STAR, n, line)
    ensures line <= |s| && Decode(s, pos) == ArrayOf(DecodeElems(s, line, n))
  {
    assert Decode(s, pos) == DecodeArray(s, pos + 1);
  }

  /** The same, for a line that ends in CRLF. */
  lemma CrlfHeader(s: Bytes, pos: nat, tag: byte, n: i64, rest: Bytes)
    requires At(s, pos, [tag] + FormatInt(n) + CRLF + rest)
    ensures Header(s, pos, tag, n, pos + |FormatInt(n)| + 3)
    ensures At(s, pos + |FormatInt(n)| + 3, rest)
  {
    assert [tag] + FormatInt(n) + CRLF + rest == [tag] + FormatInt(n) + [CR, NEWLINE] + rest;
    FormattedHeader(s, pos, tag, n, CR, rest);
  }

  /** The header of an encoding with a formatted number `n`. */
  lemma FormattedHeader(s: Bytes, pos: nat, tag: byte, n: i64, x: byte, rest: Bytes)
    requires At(s, pos, [tag] + FormatInt(n) + [x, NEWLINE] + rest) && x != NEWLINE
    ensures Header(s, pos, tag, n, pos + |FormatInt(n)| + 3)
    ensures At(s, pos + |FormatInt(n)| + 3, rest)
  {
    LineSplit(s, pos, tag, FormatInt(n), x, rest);
    Formatted(n);
    HeaderAt(s, pos, tag, FormatInt(n), n, x);
  }

  /** A tag byte, a line `f` ended by `x` and a newline, and what follows. */
  lemma LineSplit(s: Bytes, pos: nat, tag: byte, f: Bytes, x: byte, rest: Bytes)
    requires At(s, pos, [tag] + f + [x, NEWLINE] + rest)
    ensures At(s, pos, [tag]) && At(s, pos + 1, f + [x, NEWLINE]) && At(s, pos + |f| + 3, rest)
  {
    assert [tag] + f + [x, NEWLINE] + rest == [tag] + (f + [x, NEWLINE]) + rest;
    HeaderSplit(s, pos, [tag], f + [x, NEWLINE], rest);
  }

  lemma DecodeSimpleAt(b: Bytes, x: byte, s: Bytes, pos: nat)
    requires NEWLINE !in b && x != NEWLINE
    requires At(s, pos, [PLUS] + b + [x, NEWLINE])
    ensures Decode(s, pos) == Done(Simple(b), pos + |b| + 3)
  {
    assert pos < |s| && s[pos] == PLUS && LineEnd(s, pos + 1) == pos + |b| + 3 && DropTwo(s[pos + 1..pos + |b| + 3]) == b by {
      HeaderSplit(s, pos, [PLUS], b + [x, NEWLINE], []);
      assert s[pos..pos + 1][0] == s[pos];
      LineOf(s, pos + 1, b, x);
    }
    assert Decode(s, pos) == DecodeSimple(s, pos + 1);
  }

  lemma DecodeBlobAt(b: Bytes, t: Bytes, s: Bytes, pos: nat)
    requires |b| <= I64_MAX && |t| == 2
    requires At(s, pos, [DOLLAR] + FormatInt(|b|) + CRLF + (b + t))
    ensures Decode(s, pos) == Done(Blob(b), pos + |FormatInt(|b|)| + 3 + |b| + 2)
  {
    var line := pos + |FormatInt(|b|)| + 3;
    CrlfHeader(s, pos, DOLLAR, |b|, b + t);
    BulkArm(s, pos, b, t, line);
  }

  lemma DecodeNumberAt(n: i64, x: byte, s: Bytes, pos: nat)
    requires x != NEWLINE
    requires At(s, pos, [COLON] + FormatInt(n) + [x, NEWLINE])
    ensures Decode(s, pos) == Done(Number(n), pos + |FormatInt(n)| + 3)
  {
    assert Header(s, pos, COLON, n, pos + |FormatInt(n)| + 3) by {
      assert [COLON] + FormatInt(n) + [x, NEWLINE] + [] == [COLON] + FormatInt(n) + [x, NEWLINE];
      FormattedHeader(s, pos, COLON, n, x, []);
    }
    IntegerArm(s, pos, n, pos + |FormatInt(n)| + 3);
  }

  lemma DecodeNegativeLength(n: i64, s: Bytes, pos: nat)
    requires n < 0 && At(s, pos, [DOLLAR] + FormatInt(n) + CRLF)
    ensures Decode(s, pos) == Done(Null, pos + |FormatInt(n)| + 3)
  {
    assert Header(s, pos, DOLLAR, n, pos + |FormatInt(n)| + 3) by {
      assert [DOLLAR] + FormatInt(n) + CRLF + [] == [DOLLAR] + FormatInt(n) + CRLF;
      FormattedHeader(s, pos, DOLLAR, n, CR, []);
    }
    NullArm(s, pos, n, pos + |FormatInt(n)| + 3);
  }

  /**
   * Decoding at the start of an encoded value gives that value back and
   * stops exactly at its end, whatever follows it in the stream.
   */
  lemma {:induction false} DecodeAt(v: Value, s: Bytes, pos: nat)
    requires Decodable(v) && At(s, pos, Encode(v))
    ensures Decode(s, pos) == Done(v, pos + |Encode(v)|)
    decreases v, 0
  {
    match v {
      case Simple(b) =>
        DecodeSimpleAt(b, CR, s, pos);
      case Blob(b) =>
        assert Encode(v) == [DOLLAR] + FormatInt(|b|) + CRLF + (b + CRLF);
        DecodeBlobAt(b, CRLF, s, pos);
      case Number(n) =>
        DecodeNumberAt(n, CR, s, pos);
      case Array(vs) =>
        assert Encode(v) == [STAR] + FormatInt(|vs|) + CRLF + EncodeAll(vs);
        DecodeArrayAt(vs, s, pos);
      case Err(_, _) =>
        assert false;
      case Null =>
        DecodeNullAt(s, pos);
    }
  }

  lemma DecodeNullAt(s: Bytes, pos: nat)
    requires At(s, pos, Encode(Null))
    ensures Decode(s, pos) == Done(Null, pos + |Encode(Null)|)
  {
    NullBytes();
    DecodeNegativeLength(-1, s, pos);
  }

  lemma {:induction false} DecodeArrayAt(vs: seq<Value>, s: Bytes, pos: nat)
    requires |vs| <= I64_MAX && forall i :: 0 <= i < |vs| ==> Decodable(vs[i])
    requires At(s, pos, [STAR] + FormatInt(|vs|) + CRLF + EncodeAll(vs))
    ensures Decode(s, pos) == Done(Array(vs), pos + |FormatInt(|vs|)| + 3 + |EncodeAll(vs)|)
    decreases vs, 1
  {
    var line := pos + |FormatInt(|vs|)| + 3;
    CrlfHeader(s, pos, STAR, |vs|, EncodeAll(vs));
    DecodeAllAt(vs, s, line);
    ArrayArm(s, pos, |vs|, line);
  }

  /** The same for the elements of an array, read one after another in order. */
  lemma {:induction false} DecodeAllAt(vs: seq<Value>, s: Bytes, pos: nat)
    requires forall i :: 0 <= i < |vs| ==> Decodable(vs[i])
    requires At(s, pos, EncodeAll(vs))
    ensures DecodeElems(s, pos, |vs|) == Done(vs, pos + |EncodeAll(vs)|)
    decreases vs, 0
  {
    if vs != [] {
      var next := pos + |Encode(vs[0])|;
      assert EncodeAll(vs) == Encode(vs[0]) + EncodeAll(vs[1..]);
      AtSplit(s, pos, Encode(vs[0]), EncodeAll(vs[1..]));
      DecodeAt(vs[0], s, pos);
      DecodeAllAt(vs[1..], s, next);
      ElemsCons(s, pos, vs[0], next, vs[1..], next + |EncodeAll(vs[1..])|);
      assert [vs[0]] + vs[1..] == vs;
    }
  }

  /** One more element read in front of the rest. */
  lemma ElemsCons(s: Bytes, pos: nat, v: Value, next: nat, rest: seq<Value>, end: nat)
    requires pos <= |s| && Decode(s, pos) == Done(v, next)
    requires next <= |s| && DecodeElems(s, next, |rest|) == Done(rest, end)
    ensures DecodeElems(s, pos, |rest| + 1) == Done([v] + rest, end)
  {
  }

  lemma AtStart(e: Bytes, rest: Bytes)
    ensures At(e + rest, 0, e)
  {
    assert (e + rest)[..|e|] == e;
  }

  /** The round trip: decoding the encoding of a value gives the value and consumes exactly its bytes. */
  lemma RoundTrip(v: Value, rest: Bytes)
    requires Decodable(v)
    ensures Decode(Encode(v) + rest, 0) == Done(v, |Encode(v)|)
  {
    AtStart(Encode(v), rest);
    DecodeAt(v, Encode(v) + rest, 0);
  }

  /** Values written back to back are read back one at a time, in the order written. */
  lemma ReadInOrder(vs: seq<Value>, rest: Bytes)
    requires forall i :: 0 <= i < |vs| ==> Decodable(vs[i])
    ensures DecodeElems(EncodeAll(vs) + rest, 0, |vs|) == Done(vs, |EncodeAll(vs)|)
  {
    AtStart(EncodeAll(vs), rest);
    DecodeAllAt(vs, EncodeAll(vs) + rest, 0);
  }

  /** The `-` tag is not implemented by the decoder, so an error reply does not round-trip. */
  lemma ErrNotDecodable(code: Bytes, message: Bytes, rest: Bytes)
    ensures Decode(Encode(Err(code, message)) + rest, 0) == Unsupported(MINUS)
  {
  }

  /** `Value::err` replies are written as `-ERR <message>` and a line end. */
  lemma ErrValueBytes(message: Bytes)
    ensures Encode(ErrValue(message)) == Str("-ERR ") + message + CRLF
  {
    assert Str("-ERR ") == [MINUS] + Str("ERR") + [SPACE];
  }

  /** Any negative bulk length, not only -1, reads as Null, right after the length line. */
  lemma NegativeLengthIsNull(n: i64, rest: Bytes)
    requires n < 0
    ensures Decode([DOLLAR] + FormatInt(n) + CRLF + rest, 0) == Done(Null, |FormatInt(n)| + 3)
  {
    var e := [DOLLAR] + FormatInt(n) + CRLF;
    AtStart(e, rest);
    DecodeNegativeLength(n, e + rest, 0);
  }

  /** A negative array count reads as an empty array. */
  lemma NegativeCountIsEmpty(n: i64, rest: Bytes)
    requires n < 0
    ensures Decode([STAR] + FormatInt(n) + CRLF + rest, 0) == Done(Array([]), |FormatInt(n)| + 3)
  {
    var s := [STAR] + FormatInt(n) + CRLF + rest;
    var line := |FormatInt(n)| + 3;
    FormattedHeader(s, 0, STAR, n, CR, rest);
    ArrayArm(s, 0, n, line);
  }

  /** A bulk payload is read by its length; the two bytes after it are skipped unchecked. */
  lemma BlobTrailerUnchecked(b: Bytes, t: Bytes, rest: Bytes)
    requires |b| <= I64_MAX && |t| == 2
    ensures Decode([DOLLAR] + FormatInt(|b|) + CRLF + (b + t) + rest, 0) == Done(Blob(b), |FormatInt(|b|)| + 3 + |b| + 2)
  {
    var e := [DOLLAR] + FormatInt(|b|) + CRLF + (b + t);
    AtStart(e, rest);
    DecodeBlobAt(b, t, e + rest, 0);
  }

  /** A simple string line loses its last two bytes before the newline, whatever the first of them is. */
  lemma SimpleTerminatorUnchecked(b: Bytes, x: byte, rest: Bytes)
    requires NEWLINE !in b && x != NEWLINE
    ensures Decode([PLUS] + b + [x, NEWLINE] + rest, 0) == Done(Simple(b), |b| + 3)
  {
    var e := [PLUS] + b + [x, NEWLINE];
    AtStart(e, rest);
    DecodeSimpleAt(b, x, e + rest, 0);
  }

  /** The same holds for an integer line. */
  lemma NumberTerminatorUnchecked(n: i64, x: byte, rest: Bytes)
    requires x != NEWLINE
    ensures Decode([COLON] + FormatInt(n) + [x, NEWLINE] + rest, 0) == Done(Number(n), |FormatInt(n)| + 3)
  {
    var e := [COLON] + FormatInt(n) + [x, NEWLINE];
    AtStart(e, rest);
    DecodeNumberAt(n, x, e + rest, 0);
  }

  /** The ways decoding fails: end of input at the tag byte, a length or number line that is not a decimal i64, an unimplemented tag. */
  lemma DecodeFailures(s: Bytes, pos: nat)
    requires pos <= |s|
    ensures pos == |s| ==> Decode(s, pos) == Failed(Eof)
    ensures pos < |s| && s[pos] in {DOLLAR, COLON, STAR} && ParseI64(DropTwo(s[pos + 1..LineEnd(s, pos + 1)])) == None ==>
      Decode(s, pos) == Failed(ParseError)
    ensures pos < |s| && s[pos] !in {PLUS, DOLLAR, COLON, STAR} ==> Decode(s, pos) == Unsupported(s[pos])
  {
  }

  // The serialization and deserialization tests, as pairs of a value and its bytes.

  lemma SimpleCase()
    ensures Encode(Simple(Str("somesimplestring"))) == Str("+somesimplestring\r\n")
  {
    assert "+somesimplestring\r\n" == "+" + "somesimplestring" + "\r\n";
    StrConcat("+", "somesimplestring");
    StrConcat("+somesimplestring", "\r\n");
  }

  lemma BlobCase()
    ensures Encode(Blob(Str("somesimplestring"))) == Str("$16\r\nsomesimplestring\r\n")
  {
    assert "$16\r\nsomesimplestring\r\n" == "$16\r\n" + "somesimplestring" + "\r\n";
    StrConcat("$16\r\n", "somesimplestring");
    StrConcat("$16\r\nsomesimplestring", "\r\n");
    assert FormatInt(16) == [49, 54];
    assert Str("$16\r\n") == [DOLLAR] + FormatInt(16) + CRLF;
  }

  lemma NumberCases()
    ensures Encode(Number(-1)) == Str(":-1\r\n")
    ensures Encode(Number(0)) == Str(":0\r\n")
    ensures Encode(Number(12912)) == Str(":12912\r\n")
  {
    assert FormatInt(-1) == [45, 49];
    assert FormatInt(0) == [48];
    assert FormatInt(12912) == [49, 50, 57, 49, 50];
  }

  lemma LoremCase()
    ensures Encode(Simple(Str("loremipsum"))) == Str("+loremipsum\r\n")
  {
    assert "+loremipsum\r\n" == "+" + "loremipsum" + "\r\n";
    StrConcat("+", "loremipsum");
    StrConcat("+loremipsum", "\r\n");
  }

  lemma DosCase()
    ensures Encode(Blob(Str("doscolorsit"))) == Str("$11\r\ndoscolorsit\r\n")
  {
    assert "$11\r\ndoscolorsit\r\n" == "$11\r\n" + "doscolorsit" + "\r\n";
    StrConcat("$11\r\n", "doscolorsit");
    StrConcat("$11\r\ndoscolorsit", "\r\n");
    assert FormatInt(11) == [49, 49];
    assert Str("$11\r\n") == [DOLLAR] + FormatInt(11) + CRLF;
  }

  lemma ArrayBytes()
    ensures Str("*3\r\n+loremipsum\r\n$11\r\ndoscolorsit\r\n:123\r\n")
         == Str("*3\r\n") + Str("+loremipsum\r\n") + Str("$11\r\ndoscolorsit\r\n") + Str(":123\r\n")
  {
    assert "*3\r\n+loremipsum\r\n$11\r\ndoscolorsit\r\n:123\r\n"
        == "*3\r\n+loremipsum\r\n" + "$11\r\ndoscolorsit\r\n:123\r\n";
    StrConcat("*3\r\n+loremipsum\r\n", "$11\r\ndoscolorsit\r\n:123\r\n");
    ArrayBytesFront();
    ArrayBytesBack();
  }

  lemma ArrayBytesFront()
    ensures Str("*3\r\n+loremipsum\r\n") == Str("*3\r\n") + Str("+loremipsum\r\n")
  {
    assert "*3\r\n+loremipsum\r\n" == "*3\r\n" + "+loremipsum\r\n";
    StrConcat("*3\r\n", "+loremipsum\r\n");
  }

  lemma ArrayBytesBack()
    ensures Str("$11\r\ndoscolorsit\r\n:123\r\n") == Str("$11\r\ndoscolorsit\r\n") + Str(":123\r\n")
  {
    assert "$11\r\ndoscolorsit\r\n:123\r\n" == "$11\r\ndoscolorsit\r\n" + ":123\r\n";
    StrConcat("$11\r\ndoscolorsit\r\n", ":123\r\n");
  }

  /** Three values back to back. */
  lemma EncodeThree(a: Value, b: Value, c: Value)
    ensures EncodeAll([a, b, c]) == Encode(a) + Encode(b) + Encode(c)
  {
    assert [c][1..] == [];
    assert EncodeAll([c]) == Encode(c);
    assert [b, c][1..] == [c];
    assert [a, b, c][1..] == [b, c];
  }

  lemma ArrayCase()
    ensures Encode(Array([Simple(Str("loremipsum")), Blob(Str("doscolorsit")), Number(123)]))
         == Str("*3\r\n+loremipsum\r\n$11\r\ndoscolorsit\r\n:123\r\n")
  {
    var lorem := Simple(Str("loremipsum"));
    var dos := Blob(Str("doscolorsit"));
    var vs := [lorem, dos, Number(123)];
    EncodeThree(lorem, dos, Number(123));
    ThreeHeader();
    LoremCase();
    DosCase();
    NumberCase();
    ArrayBytes();
  }

  lemma ThreeHeader()
    ensures Encode(Array([Simple(Str("loremipsum")), Blob(Str("doscolorsit")), Number(123)]))
         == Str("*3\r\n") + EncodeAll([Simple(Str("loremipsum")), Blob(Str("doscolorsit")), Number(123)])
  {
    assert FormatInt(3) == [51];
  }

  lemma NumberCase()
    ensures Encode(Number(123)) == Str(":123\r\n")
  {
    assert FormatInt(123) == [49, 50, 51];
  }

  /** The test inputs decode to the test values, each consumed to its end. */
  lemma DeserializeSimple()
    ensures Decode(Str("+somesimplestring\r\n"), 0) == Done(Simple(Str("somesimplestring")), 19)
  {
    SimpleCase();
    assert forall i :: 0 <= i < 16 ==> Str("somesimplestring")[i] != NEWLINE;
    ReadBack(Simple(Str("somesimplestring")));
  }

  lemma DeserializeBlob()
    ensures Decode(Str("$16\r\nsomesimplestring\r\n"), 0) == Done(Blob(Str("somesimplestring")), 23)
  {
    BlobCase();
    ReadBack(Blob(Str("somesimplestring")));
  }

  lemma DeserializeNumbers()
    ensures Decode(Str(":-1\r\n"), 0) == Done(Number(-1), 5)
    ensures Decode(Str(":0\r\n"), 0) == Done(Number(0), 4)
    ensures Decode(Str(":12912\r\n"), 0) == Done(Number(12912), 8)
  {
    NumberCases();
    ReadBack(Number(-1));
    ReadBack(Number(0));
    ReadBack(Number(12912));
  }

  lemma DeserializeArray()
    ensures Decode(Str("*3\r\n+loremipsum\r\n$11\r\ndoscolorsit\r\n:123\r\n"), 0)
         == Done(Array([Simple(Str("loremipsum")), Blob(Str("doscolorsit")), Number(123)]), 41)
  {
    ArrayCase();
    ArrayCaseDecodable();
    ReadBack(Array([Simple(Str("loremipsum")), Blob(Str("doscolorsit")), Number(123)]));
  }

  lemma ArrayCaseDecodable()
    ensures Decodable(Array([Simple(Str("loremipsum")), Blob(Str("doscolorsit")), Number(123)]))
  {
    var vs := [Simple(Str("loremipsum")), Blob(Str("doscolorsit")), Number(123)];
    assert Decodable(vs[0]) by {
      assert forall i :: 0 <= i < 10 ==> Str("loremipsum")[i] != NEWLINE;
    }
  }

  lemma ReadBack(v: Value)
    requires Decodable(v)
    ensures Decode(Encode(v), 0) == Done(v, |Encode(v)|)
  {
    assert Encode(v) + [] == Encode(v);
    RoundTrip(v, []);
  }
}

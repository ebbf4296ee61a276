/**
 * The earlier, superseded version of the store and session: a vector of
 * databases whose size is taken from the configuration with 0 meaning 16,
 * and a session that only knows COMMAND (a hard-coded reply) and SELECT.
 * The storage maps are created but never read or written.
 */
module DraftDb {
  import opened Text
  import opened Errors
  import opened Values
  import Db

  /** `if config.databases == 0 { 16 } else { config.databases }`, then the range `0..n`, empty when n is negative. */
  function DatabaseCount(databases: int): (n: nat)
    ensures databases == 0 ==> n == 16
    ensures databases > 0 ==> n == databases
    ensures databases < 0 ==> n == 0
  {
    if databases == 0 then 16 else if databases < 0 then 0 else databases
  }

  /** `InternalDb`: its map holds values, but no command touches it. */
  class InternalDb {
    var storage: map<Bytes, Value>

    /** `InternalDb::new`. */
    constructor ()
      ensures storage == map[]
    {
      storage := map[];
    }
  }

  /** `Database`: a vector of distinct databases, with no upper bound on its size. */
  class Database {
    const dbs: seq<InternalDb>

    ghost predicate Valid()
      reads this
    {
      forall i, j :: 0 <= i < j < |dbs| ==> dbs[i] != dbs[j]
    }

    /** `Database::new`. */
    constructor (databases: int)
      ensures Valid()
      ensures |dbs| == DatabaseCount(databases)
      ensures forall i :: 0 <= i < |dbs| ==> fresh(dbs[i]) && dbs[i].storage == map[]
    {
      var n := DatabaseCount(databases);
      var made: seq<InternalDb> := [];
      while |made| < n
        invariant |made| <= n
        invariant forall i :: 0 <= i < |made| ==> fresh(made[i]) && made[i].storage == map[]
        invariant forall i, j :: 0 <= i < j < |made| ==> made[i] != made[j]
      {
        var db := new InternalDb();
        made := made + [db];
      }
      dbs := made;
    }

    /**
     * `Database::get`: the handle of database `index`, if there is one. A
     * `Vec` never holds more than `isize::MAX` elements, so a negative index,
     * which wraps to at least 2^63, never names a database.
     */
    function Get(index: i64): (r: Option<nat>)
      reads this
      ensures |dbs| <= 0x8000_0000_0000_0000 ==> (r.Some? <==> 0 <= index < |dbs|)
      ensures r.Some? ==> r.value < |dbs|
      ensures r.Some? && |dbs| <= 0x8000_0000_0000_0000 ==> r.value == index
    {
      Db.DbIndex(index, |dbs|)
    }

    /** `create_session`: selects the first database; `first().unwrap()` panics when there is none. */
    method CreateSession() returns (s: Session)
      requires Valid() && |dbs| >= 1
      ensures fresh(s) && s.db == this && s.selected == 0 && s.Valid()
    {
      s := new Session(this);
    }
  }

  // ---------------------------------------------------------------------
  // Requests, as functions of the selected index

  const COMMAND_NAME: Bytes := Str("COMMAND")
  const SELECT_NAME: Bytes := Str("SELECT")

  /** The hard-coded reply of `handle_command_command`: four entries of six fields each. */
  function Listing(): (entries: seq<Value>)
    ensures |entries| == 4
    ensures forall i :: 0 <= i < 4 ==> entries[i].Array? && |entries[i].elems| == 6
  {
    [ Array([Simple(Str("COMMAND")), Number(1), Array([Simple(Str("readonly")), Simple(Str("random"))]),
             Number(1), Number(1), Number(1)]),
      Array([Simple(Str("GET")), Number(2), Array([Simple(Str("readonly")), Simple(Str("random"))]),
             Number(1), Number(1), Number(1)]),
      Array([Simple(Str("SET")), Number(2), Array([Simple(Str("write")), Simple(Str("string")), Simple(Str("slow"))]),
             Number(1), Number(1), Number(1)]),
      Array([Simple(Str("SELECT")), Number(2), Array([Simple(Str("fast")), Simple(Str("connection"))]),
             Number(0), Number(0), Number(0)]) ]
  }

  /** The selected index after a request, and the one reply to it. */
  datatype Exchange = Exchange(selected: nat, reply: Value)

  /** The checks of `handle_request` before the name is matched: a reply, or the upper-cased name and the arguments. */
  datatype Parsed = Rejected(reply: Value) | Named(name: Bytes, args: seq<Value>)

  function ParseRequest(request: Value, show: Value -> Bytes): (r: Parsed)
    ensures r.Rejected? ==> r.reply.Err? && r.reply.code == Str("ERR")
    ensures r.Named? <==>
      request.Array? && |request.elems| > 0 && Db.StringArg(request.elems[0]).Some? && ValidUtf8(request.elems[0].payload)
    ensures r.Named? ==> r.name == Upper(request.elems[0].payload) && r.args == request.elems[1..]
  {
    if !request.Array? then Rejected(ErrValue(Db.INVALID_REQUEST + show(request)))
    else if |request.elems| == 0 then Rejected(ErrValue(Db.INVALID_REQUEST + Db.EMPTY_ITER))
    else
      var command := request.elems[0];
      match Db.StringArg(command)
      case None => Rejected(ErrValue(Db.INVALID_COMMAND + Db.SEPARATOR + show(command)))
      case Some(bytes) =>
        match IntoString(bytes)
        case Failure(_) => Rejected(ErrValue(Db.INVALID_COMMAND))
        case Ok(text) => Named(Upper(text), request.elems[1..])
  }

  /** `handle_select_command` on a vector of `count` databases. Every conversion failure is an invalid index. */
  function SelectCommand(selected: nat, count: nat, args: seq<Value>): (x: Exchange)
    ensures x.reply.Err? ==> x.selected == selected
    ensures x.reply.Err? || x.reply == Simple(Db.OK)
  {
    if |args| == 0 then Exchange(selected, ErrValue(Db.SELECT_ARITY))
    else
      var target: Option<i64> :=
        match args[0]
        case Number(n) => Some(n)
        case Simple(s) => if ValidUtf8(s) then ParseI64(s) else None
        case Blob(s) => if ValidUtf8(s) then ParseI64(s) else None
        case _ => None;
      match target
      case None => Exchange(selected, ErrValue(Db.ERR_DB_INDEX))
      case Some(n) =>
        match Db.DbIndex(n, count)
        case None => Exchange(selected, ErrValue(Db.ERR_DB_OUTOFRANGE))
        case Some(i) => Exchange(i, Simple(Db.OK))
  }

  /** `Session::handle_request` on the selected index, with `count` databases. */
  function Respond(selected: nat, count: nat, request: Value, show: Value -> Bytes): (x: Exchange)
    ensures selected < count ==> x.selected < count
    ensures ParseRequest(request, show).Rejected? ==> x == Exchange(selected, ParseRequest(request, show).reply)
  {
    match ParseRequest(request, show)
    case Rejected(reply) => Exchange(selected, reply)
    case Named(name, args) =>
      if name == COMMAND_NAME then Exchange(selected, Array(Listing()))
      else if name == SELECT_NAME then SelectCommand(selected, count, args)
      else Exchange(selected, ErrValue(Db.UnknownCommand(name, args, show)))
  }

  // ---------------------------------------------------------------------
  // The session

  /** `Session`: the database and the index of the selected database. */
  class Session {
    const db: Database
    var selected: nat

    ghost predicate Valid()
      reads this, db
    {
      db.Valid() && selected < |db.dbs|
    }

    constructor (db: Database)
      requires db.Valid() && |db.dbs| >= 1
      ensures Valid() && this.db == db && selected == 0
    {
      this.db := db;
      selected := 0;
    }

    /** `Session::handle_request`: one reply per request. */
    method HandleRequest(request: Value, show: Value -> Bytes) returns (reply: Value)
      requires Valid()
      modifies this
      ensures Valid()
      ensures Exchange(selected, reply) == Respond(old(selected), |db.dbs|, request, show)
    {
      match ParseRequest(request, show)
      case Rejected(r) =>
        reply := r;
      case Named(name, args) =>
        if name == COMMAND_NAME {
          reply := HandleCommandCommand(args);
        } else if name == SELECT_NAME {
          reply := HandleSelectCommand(args);
        } else {
          reply := ErrValue(Db.UnknownCommand(name, args, show));
        }
    }

    /** `handle_command_command`: the fixed table, whatever the arguments. */
    method HandleCommandCommand(args: seq<Value>) returns (reply: Value)
      ensures reply == Array(Listing())
    {
      reply := Array(Listing());
    }

    /** `handle_select_command`: selects the database the first argument names. */
    method HandleSelectCommand(args: seq<Value>) returns (reply: Value)
      requires Valid()
      modifies this
      ensures Valid()
      ensures Exchange(selected, reply) == SelectCommand(old(selected), |db.dbs|, args)
    {
      if |args| == 0 {
        return ErrValue(Db.SELECT_ARITY);
      }
      var target: i64;
      match args[0] {
        case Number(n) =>
          target := n;
        case Simple(s) =>
          if !ValidUtf8(s) || ParseI64(s).None? {
            return ErrValue(Db.ERR_DB_INDEX);
          }
          target := ParseI64(s).value;
        case Blob(s) =>
          if !ValidUtf8(s) || ParseI64(s).None? {
            return ErrValue(Db.ERR_DB_INDEX);
          }
          target := ParseI64(s).value;
        case _ =>
          return ErrValue(Db.ERR_DB_INDEX);
      }
      var handle := db.Get(target);
      if handle.None? {
        return ErrValue(Db.ERR_DB_OUTOFRANGE);
      }
      selected := handle.value;
      reply := Simple(Db.OK);
    }
  }

  // ---------------------------------------------------------------------
  // Properties

  /** The fixed COMMAND reply describes COMMAND, GET, SET and SELECT, in that order, as the later table does, except that SELECT's arity is 2 here. */
  lemma ListingAgreesWithTable()
    ensures Listing() == [
      Db.Entry(Db.GetCommands()[0]),
      Db.Entry(Db.GetCommands()[2]),
      Db.Entry(Db.GetCommands()[3]),
      Db.Entry(Db.GetCommands()[1].(argsLen := 2))]
  {
    var specs := Db.GetCommands();
    EntryOfTwo(specs[0]);
    EntryOfTwo(specs[2]);
    EntryOfThree(specs[3]);
    EntryOfTwo(specs[1].(argsLen := 2));
  }

  lemma EntryOfTwo(spec: Db.CommandSpec)
    requires |spec.flags| == 2
    ensures Db.Entry(spec) == Array([Simple(spec.name), Number(spec.argsLen),
      Array([Simple(spec.flags[0]), Simple(spec.flags[1])]),
      Number(spec.firstKey), Number(spec.lastKey), Number(spec.keyStep)])
  {
    assert Db.Entry(spec).elems[2].elems == [Simple(spec.flags[0]), Simple(spec.flags[1])];
  }

  lemma EntryOfThree(spec: Db.CommandSpec)
    requires |spec.flags| == 3
    ensures Db.Entry(spec) == Array([Simple(spec.name), Number(spec.argsLen),
      Array([Simple(spec.flags[0]), Simple(spec.flags[1]), Simple(spec.flags[2])]),
      Number(spec.firstKey), Number(spec.lastKey), Number(spec.keyStep)])
  {
    assert Db.Entry(spec).elems[2].elems == [Simple(spec.flags[0]), Simple(spec.flags[1]), Simple(spec.flags[2])];
  }

  /** Only COMMAND and SELECT are known, in any case; every other name, GET and SET included, gets the unknown-command reply. */
  lemma OnlyTwoCommands(selected: nat, count: nat, c: Value, args: seq<Value>, show: Value -> Bytes)
    requires Db.StringArg(c).Some? && ValidUtf8(c.payload)
    requires Upper(c.payload) != COMMAND_NAME && Upper(c.payload) != SELECT_NAME
    ensures Respond(selected, count, Array([c] + args), show)
         == Exchange(selected, ErrValue(Db.UnknownCommand(Upper(c.payload), args, show)))
  {
    assert ([c] + args)[0] == c && ([c] + args)[1..] == args;
  }

  /** GET and SET, known to the later session, are unknown here. */
  lemma GetAndSetUnknown()
    ensures Upper(Db.GET_NAME) != COMMAND_NAME && Upper(Db.GET_NAME) != SELECT_NAME
    ensures Upper(Db.SET_NAME) != COMMAND_NAME && Upper(Db.SET_NAME) != SELECT_NAME
  {
    Db.GetName();
    Db.SetName();
  }

  /** Command names are matched ignoring the case of ASCII letters. */
  lemma RespondIgnoresCase(selected: nat, count: nat, c1: Value, c2: Value, args: seq<Value>, show: Value -> Bytes)
    requires Db.StringArg(c1).Some? && Db.StringArg(c2).Some? && EqualIgnoringCase(c1.payload, c2.payload)
    ensures Respond(selected, count, Array([c1] + args), show) == Respond(selected, count, Array([c2] + args), show)
  {
    CaseKeepsUtf8(c1.payload, c2.payload);
    UpperIdentifiesCase(c1.payload, c2.payload);
    assert ([c1] + args)[0] == c1 && ([c1] + args)[1..] == args;
    assert ([c2] + args)[0] == c2 && ([c2] + args)[1..] == args;
  }

  /** COMMAND, in any case, answers with the fixed table and keeps the selection. */
  lemma CommandRequest(selected: nat, count: nat, c: Value, args: seq<Value>, show: Value -> Bytes)
    requires Db.StringArg(c).Some? && EqualIgnoringCase(c.payload, COMMAND_NAME)
    ensures Respond(selected, count, Array([c] + args), show) == Exchange(selected, Array(Listing()))
  {
    Db.CommandName();
    UpperIdentifiesCase(c.payload, COMMAND_NAME);
    CaseKeepsUtf8(c.payload, COMMAND_NAME);
    assert ([c] + args)[0] == c && ([c] + args)[1..] == args;
  }

  /** Replies to requests of the wrong shape are those of the later session, and keep the selection. */
  lemma MalformedRequests(selected: nat, count: nat, st: Db.Store, handlers: map<Bytes, Db.CommandSpec>, request: Value, show: Value -> Bytes, order: seq<Bytes>)
    requires Db.ValidStore(st)
    requires !request.Array? || |request.elems| == 0 || Db.StringArg(request.elems[0]).None? || !ValidUtf8(request.elems[0].payload)
    ensures Respond(selected, count, request, show) == Exchange(selected, Db.Dispatch(st, handlers, request, show, order).reply)
    ensures Db.Dispatch(st, handlers, request, show, order).store == st
  {
  }

  /** Selecting a number succeeds exactly for the index of a database, and then selects it. */
  lemma SelectNumber(selected: nat, count: nat, n: i64, rest: seq<Value>)
    requires count <= 0x8000_0000_0000_0000
    ensures SelectCommand(selected, count, [Number(n)] + rest).reply == Simple(Db.OK) <==> 0 <= n < count
    ensures 0 <= n < count ==> SelectCommand(selected, count, [Number(n)] + rest).selected == n
    ensures !(0 <= n < count) ==>
      SelectCommand(selected, count, [Number(n)] + rest) == Exchange(selected, ErrValue(Db.ERR_DB_OUTOFRANGE))
  {
    assert ([Number(n)] + rest)[0] == Number(n);
  }

  /** A decimal index sent as text selects the same database as the number itself. */
  lemma SelectText(selected: nat, count: nat, n: i64, rest: seq<Value>)
    ensures SelectCommand(selected, count, [Blob(FormatInt(n))] + rest) == SelectCommand(selected, count, [Number(n)] + rest)
    ensures SelectCommand(selected, count, [Simple(FormatInt(n))] + rest) == SelectCommand(selected, count, [Number(n)] + rest)
  {
    FormatIntIsAscii(n);
    AsciiIsUtf8(FormatInt(n));
    ParseFormatInt(n);
    assert ([Blob(FormatInt(n))] + rest)[0] == Blob(FormatInt(n));
    assert ([Simple(FormatInt(n))] + rest)[0] == Simple(FormatInt(n));
    assert ([Number(n)] + rest)[0] == Number(n);
  }

  /**
   * Why SELECT fails here: no argument, or an argument that is not a
   * number and not UTF-8 decimal text — non-UTF-8 text included — or a
   * number that names no database.
   */
  lemma SelectReasons(selected: nat, count: nat, args: seq<Value>)
    ensures SelectCommand(selected, count, args).reply == ErrValue(Db.SELECT_ARITY) <==> args == []
    ensures SelectCommand(selected, count, args).reply == ErrValue(Db.ERR_DB_INDEX) <==>
      args != [] && !args[0].Number? &&
      (Db.StringArg(args[0]).None? || !ValidUtf8(args[0].payload) || ParseI64(args[0].payload).None?)
  {
    assert |Db.SELECT_ARITY| != |Db.ERR_DB_INDEX| && |Db.ERR_DB_INDEX| != |Db.ERR_DB_OUTOFRANGE|;
  }

  /** Text that is not UTF-8 is an invalid index here, where the later SELECT calls it out of range. */
  lemma Utf8ErrorDiffers(selected: nat, count: nat, st: Db.Store, s: Bytes, rest: seq<Value>)
    requires Db.ValidStore(st) && !ValidUtf8(s)
    ensures SelectCommand(selected, count, [Blob(s)] + rest).reply == ErrValue(Db.ERR_DB_INDEX)
    ensures Db.Select(st, [Blob(s)] + rest).result == Db.Refused(Db.ERR_DB_OUTOFRANGE)
  {
    assert ([Blob(s)] + rest)[0] == Blob(s);
  }
}

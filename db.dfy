/**
 * The key-value store behind the server: between 1 and 16 byte-string maps,
 * a session that has one of them selected, the command table, the request
 * dispatcher and the four command handlers COMMAND, SELECT, GET and SET.
 *
 * A database handle (`Arc<RwLock<InternalDb>>`) is the index of that
 * database; the session's selected handle is the index `selected`. The
 * whole state a session can observe is a `Store`: the contents of every
 * map and the selected index. Each operation is a function from a `Store`
 * (the specification) and a method on the classes that does the same by
 * updating fields in place.
 */
module Db {
  import opened Text
  import opened Errors
  import opened Values

  // ---------------------------------------------------------------------
  // The command table

  const READONLY: Bytes := Str("readonly")
  const RANDOM: Bytes := Str("random")
  const STRING: Bytes := Str("string")
  const SLOW: Bytes := Str("slow")
  const FAST: Bytes := Str("fast")
  const WRITE: Bytes := Str("write")
  const CONNECTION: Bytes := Str("connection")

  const COMMAND_NAME: Bytes := Str("COMMAND")
  const SELECT_NAME: Bytes := Str("SELECT")
  const GET_NAME: Bytes := Str("GET")
  const SET_NAME: Bytes := Str("SET")

  /** Which of the four handler functions a spec points to. */
  datatype Handler = CommandHandler | SelectHandler | GetHandler | SetHandler

  /** `CommandSpec`: what COMMAND reports about a command, and its handler. */
  datatype CommandSpec = CommandSpec(
    name: Bytes,
    argsLen: i64,
    flags: seq<Bytes>,
    firstKey: i64,
    lastKey: i64,
    keyStep: i64,
    handler: Handler)

  /** `get_commands`: the four commands, each paired with its own handler. */
  function GetCommands(): (specs: seq<CommandSpec>)
    ensures |specs| == 4
    ensures specs[0].name == COMMAND_NAME && specs[0].handler == CommandHandler
    ensures specs[1].name == SELECT_NAME && specs[1].handler == SelectHandler
    ensures specs[2].name == GET_NAME && specs[2].handler == GetHandler
    ensures specs[3].name == SET_NAME && specs[3].handler == SetHandler
  {
    [ CommandSpec(COMMAND_NAME, 1, [READONLY, RANDOM], 1, 1, 1, CommandHandler),
      CommandSpec(SELECT_NAME, 1, [FAST, CONNECTION], 0, 0, 0, SelectHandler),
      CommandSpec(GET_NAME, 2, [READONLY, RANDOM], 1, 1, 1, GetHandler),
      CommandSpec(SET_NAME, 2, [WRITE, STRING, SLOW], 1, 1, 1, SetHandler) ]
  }

  /** The handler table `create_session` builds: each spec under its upper-cased name, later specs winning. */
  function Registry(specs: seq<CommandSpec>): (table: map<Bytes, CommandSpec>)
    ensures table.Keys == NamesOf(specs)
    decreases |specs|
  {
    if specs == [] then map[]
    else Registry(specs[..|specs| - 1])[Upper(specs[|specs| - 1].name) := specs[|specs| - 1]]
  }

  /** The upper-cased names of the specs. */
  function NamesOf(specs: seq<CommandSpec>): (names: set<Bytes>)
    ensures forall i :: 0 <= i < |specs| ==> Upper(specs[i].name) in names
    decreases |specs|
  {
    if specs == [] then {} else NamesOf(specs[..|specs| - 1]) + {Upper(specs[|specs| - 1].name)}
  }

  /** No two specs share an upper-cased name. */
  predicate DistinctNames(specs: seq<CommandSpec>)
  {
    forall i, j :: 0 <= i < j < |specs| ==> Upper(specs[i].name) != Upper(specs[j].name)
  }

  /** With distinct names, each name maps to its own spec. */
  lemma {:induction false} RegistryValues(specs: seq<CommandSpec>)
    requires DistinctNames(specs)
    ensures forall i :: 0 <= i < |specs| ==> Registry(specs)[Upper(specs[i].name)] == specs[i]
    decreases |specs|
  {
    if specs != [] {
      var front := specs[..|specs| - 1];
      assert DistinctNames(front) by {
        forall i, j | 0 <= i < j < |front| ensures Upper(front[i].name) != Upper(front[j].name) {
          assert front[i] == specs[i] && front[j] == specs[j];
        }
      }
      RegistryValues(front);
      forall i | 0 <= i < |front| ensures Registry(specs)[Upper(specs[i].name)] == specs[i] {
        assert specs[i] == front[i];
        assert Upper(specs[i].name) != Upper(specs[|specs| - 1].name);
      }
    }
  }

  /** Upper-casing ASCII text that has no lower-case letter leaves its bytes as they are. */
  lemma UpperOfUpper(s: string)
    requires IsAscii(s) && forall i :: 0 <= i < |s| ==> !('a' <= s[i] <= 'z')
    ensures Upper(Str(s)) == Str(s) && ValidUtf8(Str(s))
  {
    StrAscii(s);
  }

  lemma CommandName()
    ensures Upper(COMMAND_NAME) == COMMAND_NAME && ValidUtf8(COMMAND_NAME)
  {
    UpperOfUpper("COMMAND");
  }

  lemma SelectName()
    ensures Upper(SELECT_NAME) == SELECT_NAME && ValidUtf8(SELECT_NAME)
  {
    UpperOfUpper("SELECT");
  }

  lemma GetName()
    ensures Upper(GET_NAME) == GET_NAME && ValidUtf8(GET_NAME)
  {
    UpperOfUpper("GET");
  }

  lemma SetName()
    ensures Upper(SET_NAME) == SET_NAME && ValidUtf8(SET_NAME)
  {
    UpperOfUpper("SET");
  }

  /** The four command names are upper case and UTF-8, and no two are equal. */
  lemma UpperNames()
    ensures Upper(COMMAND_NAME) == COMMAND_NAME && Upper(SELECT_NAME) == SELECT_NAME
    ensures Upper(GET_NAME) == GET_NAME && Upper(SET_NAME) == SET_NAME
    ensures ValidUtf8(COMMAND_NAME) && ValidUtf8(SELECT_NAME) && ValidUtf8(GET_NAME) && ValidUtf8(SET_NAME)
    ensures GET_NAME != SET_NAME
  {
    CommandName();
    SelectName();
    GetName();
    SetName();
    GetIsNotSet();
  }

  lemma GetIsNotSet()
    ensures GET_NAME != SET_NAME
  {
    assert GET_NAME[0] == 71 && SET_NAME[0] == 83;
  }

  /** The session's handler table: the four names, each with its own spec. */
  lemma CommandTable()
    ensures Registry(GetCommands()).Keys == {COMMAND_NAME, SELECT_NAME, GET_NAME, SET_NAME}
    ensures Registry(GetCommands())[COMMAND_NAME] == GetCommands()[0]
    ensures Registry(GetCommands())[SELECT_NAME] == GetCommands()[1]
    ensures Registry(GetCommands())[GET_NAME] == GetCommands()[2]
    ensures Registry(GetCommands())[SET_NAME] == GetCommands()[3]
  {
    var specs := GetCommands();
    UpperNames();
    TableDistinct();
    RegistryValues(specs);
    TableNames();
  }

  /** The four upper-cased names of the session's table differ pairwise. */
  lemma TableDistinct()
    ensures DistinctNames(GetCommands())
  {
    var specs := GetCommands();
    UpperNames();
    forall i, j | 0 <= i < j < |specs| ensures Upper(specs[i].name) != Upper(specs[j].name) {
      assert |specs[0].name| == 7 && |specs[1].name| == 6 && |specs[2].name| == 3;
    }
  }

  /** The upper-cased names of the session's table are the four names. */
  lemma TableNames()
    ensures NamesOf(GetCommands()) == {COMMAND_NAME, SELECT_NAME, GET_NAME, SET_NAME}
  {
    var specs := GetCommands();
    UpperNames();
    var s3 := specs[..3];
    var s2 := s3[..2];
    var s1 := s2[..1];
    assert s1[..0] == [];
    assert NamesOf(specs) == NamesOf(s3) + {SET_NAME};
    assert NamesOf(s3) == NamesOf(s2) + {GET_NAME};
    assert NamesOf(s2) == NamesOf(s1) + {SELECT_NAME};
    assert NamesOf(s1) == {COMMAND_NAME};
  }

  /** A name in the session's table is its own upper case and is UTF-8. */
  lemma TableName(name: Bytes)
    requires name in Registry(GetCommands())
    ensures Upper(name) == name && ValidUtf8(name)
  {
    CommandTable();
    UpperNames();
  }

  // ---------------------------------------------------------------------
  // The store

  /** What a session sees: the contents of every database and which one is selected. */
  datatype Store = Store(maps: seq<map<Bytes, Bytes>>, selected: nat)

  /** Between 1 and 16 databases, and the selection names one of them. */
  predicate ValidStore(st: Store)
  {
    1 <= |st.maps| <= 16 && st.selected < |st.maps|
  }

  /** `config.databases.clamp(1, 16)`. */
  function DatabaseCount(databases: int): (n: nat)
    ensures 1 <= n <= 16
    ensures 1 <= databases <= 16 ==> n == databases
    ensures databases < 1 ==> n == 1
    ensures databases > 16 ==> n == 16
  {
    if databases < 1 then 1 else if databases > 16 then 16 else databases
  }

  /** `index as usize` on a 64-bit target: two's-complement reinterpretation. */
  function AsUsize(index: i64): (u: nat)
    ensures u < 0x1_0000_0000_0000_0000
    ensures index >= 0 ==> u == index
    ensures index < 0 ==> u >= 0x8000_0000_0000_0000 && u - index == 0x1_0000_0000_0000_0000
  {
    if index < 0 then index + 0x1_0000_0000_0000_0000 else index
  }

  /** `self.dbs.get(index as usize)` on a vector of `count` databases. */
  function DbIndex(index: i64, count: nat): (r: Option<nat>)
    ensures count <= 0x8000_0000_0000_0000 ==> (r.Some? <==> 0 <= index < count)
    ensures r.Some? ==> r.value < count
    ensures r.Some? && count <= 0x8000_0000_0000_0000 ==> r.value == index
  {
    var u := AsUsize(index);
    if u < count then Some(u) else None
  }

  /** `InternalDb`. */
  class InternalDb {
    var storage: map<Bytes, Bytes>

    /** `InternalDb::new`. */
    constructor ()
      ensures storage == map[]
    {
      storage := map[];
    }
  }

  /** `Database`: a fixed vector of distinct databases. */
  class Database {
    const dbs: seq<InternalDb>

    ghost predicate Valid()
      reads this
    {
      1 <= |dbs| <= 16 && forall i, j :: 0 <= i < j < |dbs| ==> dbs[i] != dbs[j]
    }

    /** The contents of every database, in order. */
    ghost function Maps(): (m: seq<map<Bytes, Bytes>>)
      reads this, dbs
      ensures |m| == |dbs|
      ensures forall i :: 0 <= i < |dbs| ==> m[i] == dbs[i].storage
    {
      seq(|dbs|, i reads dbs requires 0 <= i < |dbs| => dbs[i].storage)
    }

    /** `Database::new`: `clamp(databases, 1, 16)` fresh, empty databases. */
    constructor (databases: int)
      ensures Valid()
      ensures |dbs| == DatabaseCount(databases)
      ensures forall i :: 0 <= i < |dbs| ==> fresh(dbs[i]) && dbs[i].storage == map[]
    {
      var n := DatabaseCount(databases);
      var made: seq<InternalDb> := [];
      while |made| < n
        invariant |made| <= n
        invariant forall i :: 0 <= i < |made| ==> fresh(made[i]) && made[i].storage == map[]
        invariant forall i, j :: 0 <= i < j < |made| ==> made[i] != made[j]
      {
        var db := new InternalDb();
        made := made + [db];
      }
      dbs := made;
    }

    /** `Database::get`: the handle of database `index`, if there is one. */
    function Get(index: i64): (r: Option<nat>)
      requires Valid()
      reads this
      ensures r.Some? <==> 0 <= index < |dbs|
      ensures r.Some? ==> r.value == index
    {
      DbIndex(index, |dbs|)
    }
  }

  /** A fresh database holds `clamp(databases, 1, 16)` empty maps. */
  lemma FreshStore(databases: int, d: Database)
    requires |d.dbs| == DatabaseCount(databases)
    requires forall i :: 0 <= i < |d.dbs| ==> d.dbs[i].storage == map[]
    ensures d.Maps() == seq(DatabaseCount(databases), _ => map[])
  {
  }

  // ---------------------------------------------------------------------
  // Handlers, as functions of the store

  /** `Result<Value, String>`, a handler's outcome. */
  datatype Outcome<+T> = Success(value: T) | Refused(reason: Bytes)

  /** A handler's outcome together with the store it leaves. */
  datatype Handled = Handled(store: Store, result: Outcome<Value>)

  const OK: Bytes := Str("OK")
  const ERR_DB_INDEX: Bytes := Str("invalid DB index")
  const ERR_DB_OUTOFRANGE: Bytes := Str("DB index is out of range")
  const ERR_INVALID_KEY: Bytes := Str("invalid key")
  const ERR_INVALID_VAL: Bytes := Str("invalid value")
  const SELECT_ARITY: Bytes := Str("wrong number of arguments for 'select' command")
  const GET_ARITY: Bytes := Str("wrong number of arguments for 'get' command")
  const SET_ARITY: Bytes := Str("wrong number of arguments for 'set' command")

  /** `Value::Simple(s) | Value::Blob(s) => s`. */
  function StringArg(v: Value): (r: Option<Bytes>)
    ensures r.Some? <==> v.Simple? || v.Blob?
    ensures r.Some? ==> r.value == v.payload
  {
    if v.Simple? || v.Blob? then Some(v.payload) else None
  }

  /** One line of COMMAND's reply: `[name, args_len, flags, first_key, last_key, key_step]`. */
  function Entry(spec: CommandSpec): (e: Value)
    ensures e.Array? && |e.elems| == 6 && e.elems[0] == Simple(spec.name)
    ensures e.elems[2].Array? && |e.elems[2].elems| == |spec.flags|
    ensures forall i :: 0 <= i < |spec.flags| ==> e.elems[2].elems[i] == Simple(spec.flags[i])
  {
    Array([
      Simple(spec.name),
      Number(spec.argsLen),
      Array(seq(|spec.flags|, i requires 0 <= i < |spec.flags| => Simple(spec.flags[i]))),
      Number(spec.firstKey),
      Number(spec.lastKey),
      Number(spec.keyStep)])
  }

  /**
   * `handle_command`: one entry per handler, in the order the handler map
   * yields its values; `order` is that iteration order, given as the keys.
   */
  function Listing(handlers: map<Bytes, CommandSpec>, order: seq<Bytes>): (entries: seq<Value>)
    ensures |entries| <= |order|
    decreases |order|
  {
    if order == [] then []
    else
      var last := order[|order| - 1];
      Listing(handlers, order[..|order| - 1]) + (if last in handlers then [Entry(handlers[last])] else [])
  }

  /** `order` lists every key of `keys` exactly once. */
  predicate Enumerates(order: seq<Bytes>, keys: set<Bytes>)
  {
    (forall i, j :: 0 <= i < j < |order| ==> order[i] != order[j]) &&
    (forall k :: k in keys ==> k in order) &&
    (forall i :: 0 <= i < |order| ==> order[i] in keys)
  }

  /** The number handle_select is asked to select. Non-UTF-8 text is reported as out of range. */
  function TargetIndex(args: seq<Value>): (r: Outcome<i64>)
    ensures r == Refused(SELECT_ARITY) <==> args == []
    ensures args != [] && args[0].Number? ==> r == Success(args[0].n)
    ensures args != [] && StringArg(args[0]).Some? ==> r == TextIndex(args[0].payload)
    ensures args != [] && !args[0].Number? && StringArg(args[0]).None? ==> r == Refused(ERR_DB_INDEX)
  {
    if |args| == 0 then Refused(SELECT_ARITY)
    else
      match args[0]
      case Number(n) => Success(n)
      case Simple(s) => TextIndex(s)
      case Blob(s) => TextIndex(s)
      case _ => Refused(ERR_DB_INDEX)
  }

  /** `s.into_string().map_err(|_| ERR_DB_OUTOFRANGE)?.parse::<i64>().map_err(|_| ERR_DB_INDEX)?`. */
  function TextIndex(s: Bytes): (r: Outcome<i64>)
    ensures !ValidUtf8(s) ==> r == Refused(ERR_DB_OUTOFRANGE)
    ensures ValidUtf8(s) && ParseI64(s).None? ==> r == Refused(ERR_DB_INDEX)
    ensures r.Success? <==> ValidUtf8(s) && ParseI64(s).Some?
    ensures r.Success? ==> ParseI64(s) == Some(r.value)
  {
    match IntoString(s)
    case Failure(_) => Refused(ERR_DB_OUTOFRANGE)
    case Ok(text) =>
      match ParseI64(text)
      case None => Refused(ERR_DB_INDEX)
      case Some(n) => Success(n)
  }

  /** `handle_select`. */
  function Select(st: Store, args: seq<Value>): (h: Handled)
    requires ValidStore(st)
    ensures ValidStore(h.store) && h.store.maps == st.maps
    ensures h.result.Refused? ==> h.store == st
    ensures h.result.Success? ==> h.result.value == Simple(OK)
  {
    match TargetIndex(args)
    case Refused(reason) => Handled(st, Refused(reason))
    case Success(n) =>
      match DbIndex(n, |st.maps|)
      case None => Handled(st, Refused(ERR_DB_OUTOFRANGE))
      case Some(i) => Handled(st.(selected := i), Success(Simple(OK)))
  }

  /** `handle_get`. */
  function Get(st: Store, args: seq<Value>): (r: Outcome<Value>)
    requires ValidStore(st)
    ensures r.Refused? ==> r.reason == GET_ARITY || r.reason == ERR_INVALID_KEY
    ensures r.Success? ==> r.value.Blob? || r.value.Null?
  {
    if |args| == 0 then Refused(GET_ARITY)
    else
      match StringArg(args[0])
      case None => Refused(ERR_INVALID_KEY)
      case Some(key) =>
        var m := st.maps[st.selected];
        Success(if key in m then Blob(m[key]) else Null)
  }

  /** `handle_set`. */
  function Set(st: Store, args: seq<Value>): (h: Handled)
    requires ValidStore(st)
    ensures ValidStore(h.store) && |h.store.maps| == |st.maps| && h.store.selected == st.selected
    ensures h.result.Refused? ==> h.store == st
    ensures h.result.Success? ==> h.result.value == Simple(OK)
  {
    if |args| == 0 then Handled(st, Refused(SET_ARITY))
    else
      match StringArg(args[0])
      case None => Handled(st, Refused(ERR_INVALID_KEY))
      case Some(key) =>
        if |args| < 2 then Handled(st, Refused(SET_ARITY))
        else
          match StringArg(args[1])
          case None => Handled(st, Refused(ERR_INVALID_VAL))
          case Some(value) =>
            var m := st.maps[st.selected];
            Handled(st.(maps := st.maps[st.selected := m[key := value]]), Success(Simple(OK)))
  }

  /** Runs the handler a spec names. */
  function Execute(st: Store, spec: CommandSpec, args: seq<Value>, handlers: map<Bytes, CommandSpec>, order: seq<Bytes>): (h: Handled)
    requires ValidStore(st)
    ensures ValidStore(h.store) && |h.store.maps| == |st.maps|
  {
    match spec.handler
    case CommandHandler => Handled(st, Success(Array(Listing(handlers, order))))
    case SelectHandler => Select(st, args)
    case GetHandler => Handled(st, Get(st, args))
    case SetHandler => Set(st, args)
  }

  // ---------------------------------------------------------------------
  // Dispatch

  const INVALID_REQUEST: Bytes := Str("Invalid request from client: ")
  /** How `{:?}` shows the drained request iterator of an empty array. */
  const EMPTY_ITER: Bytes := Str("IntoIter([])")
  const INVALID_COMMAND: Bytes := Str("Invalid command from client")
  const SEPARATOR: Bytes := Str(": ")
  const UNKNOWN_HEAD: Bytes := Str("unknown command `")
  const UNKNOWN_TAIL: Bytes := Str("`, with args beginning with: ")

  /** Where `handle_request` sends a request: an immediate reply, or a handler with the remaining arguments. */
  datatype Route = Rejected(reply: Value) | Routed(spec: CommandSpec, args: seq<Value>)

  /** The message for a command name that has no handler; `show` is how `{}` prints a value. */
  function UnknownCommand(name: Bytes, args: seq<Value>, show: Value -> Bytes): Bytes
  {
    UNKNOWN_HEAD + name + UNKNOWN_TAIL + show(if |args| > 0 then args[0] else Null)
  }

  /** The checks of `handle_request` before a handler runs; `show` is how `{:?}` prints a value. */
  function RouteOf(request: Value, show: Value -> Bytes, handlers: map<Bytes, CommandSpec>): (r: Route)
    ensures r.Rejected? ==> r.reply.Err? && r.reply.code == Str("ERR")
    ensures r.Routed? <==>
      request.Array? && |request.elems| > 0 && StringArg(request.elems[0]).Some? &&
      ValidUtf8(request.elems[0].payload) && Upper(request.elems[0].payload) in handlers
    ensures r.Routed? ==>
      r.spec == handlers[Upper(request.elems[0].payload)] && r.args == request.elems[1..]
  {
    if !request.Array? then Rejected(ErrValue(INVALID_REQUEST + show(request)))
    else if |request.elems| == 0 then Rejected(ErrValue(INVALID_REQUEST + EMPTY_ITER))
    else
      var command := request.elems[0];
      var args := request.elems[1..];
      match StringArg(command)
      case None => Rejected(ErrValue(INVALID_COMMAND + SEPARATOR + show(command)))
      case Some(bytes) =>
        match IntoString(bytes)
        case Failure(_) => Rejected(ErrValue(INVALID_COMMAND))
        case Ok(text) =>
          var name := Upper(text);
          if name in handlers then Routed(handlers[name], args)
          else Rejected(ErrValue(UnknownCommand(name, args, show)))
  }

  /** `unwrap_or_else(|s| Value::err(s))`. */
  function Reply(o: Outcome<Value>): (v: Value)
    ensures o.Success? ==> v == o.value
    ensures o.Refused? ==> v == Err(Str("ERR"), o.reason)
  {
    match o
    case Success(value) => value
    case Refused(reason) => ErrValue(reason)
  }

  /** The store after a request, and the one reply to it. */
  datatype Exchange = Exchange(store: Store, reply: Value)

  /** `Session::handle_request` on a store. */
  function Dispatch(st: Store, handlers: map<Bytes, CommandSpec>, request: Value, show: Value -> Bytes, order: seq<Bytes>): (x: Exchange)
    requires ValidStore(st)
    ensures ValidStore(x.store) && |x.store.maps| == |st.maps|
    ensures RouteOf(request, show, handlers).Rejected? ==> x == Exchange(st, RouteOf(request, show, handlers).reply)
  {
    match RouteOf(request, show, handlers)
    case Rejected(reply) => Exchange(st, reply)
    case Routed(spec, args) =>
      var h := Execute(st, spec, args, handlers, order);
      Exchange(h.store, Reply(h.result))
  }

  // ---------------------------------------------------------------------
  // COMMAND

  /** The keys a key sequence lists. */
  function KeySet(order: seq<Bytes>): (ks: set<Bytes>)
    ensures forall k :: k in ks <==> k in order
    decreases |order|
  {
    if order == [] then {} else KeySet(order[..|order| - 1]) + {order[|order| - 1]}
  }

  /** A key sequence without repetitions lists as many keys as it is long. */
  lemma {:induction false} KeySetSize(order: seq<Bytes>)
    requires forall i, j :: 0 <= i < j < |order| ==> order[i] != order[j]
    ensures |KeySet(order)| == |order|
    decreases |order|
  {
    if order != [] {
      var front := order[..|order| - 1];
      assert forall i, j :: 0 <= i < j < |front| ==> front[i] != front[j] by {
        forall i, j | 0 <= i < j < |front| ensures front[i] != front[j] {
          assert front[i] == order[i] && front[j] == order[j];
        }
      }
      KeySetSize(front);
      assert order[|order| - 1] !in KeySet(front);
    }
  }

  /** When every listed key is registered, the listing has one entry per key, in the same order. */
  lemma {:induction false} ListingOfKnownKeys(handlers: map<Bytes, CommandSpec>, order: seq<Bytes>)
    requires forall i :: 0 <= i < |order| ==> order[i] in handlers
    ensures |Listing(handlers, order)| == |order|
    ensures forall i :: 0 <= i < |order| ==> Listing(handlers, order)[i] == Entry(handlers[order[i]])
    decreases |order|
  {
    if order != [] {
      var front := order[..|order| - 1];
      assert forall i :: 0 <= i < |front| ==> front[i] == order[i];
      ListingOfKnownKeys(handlers, front);
    }
  }

  /**
   * COMMAND describes every registered handler exactly once: whatever the
   * map's iteration order, there are as many entries as handlers, and each
   * handler's entry is among them.
   */
  lemma ListingCoversHandlers(handlers: map<Bytes, CommandSpec>, order: seq<Bytes>)
    requires Enumerates(order, handlers.Keys)
    ensures |order| == |handlers| == |Listing(handlers, order)|
    ensures forall i :: 0 <= i < |order| ==> Listing(handlers, order)[i] == Entry(handlers[order[i]])
    ensures forall k :: k in handlers ==> Entry(handlers[k]) in Listing(handlers, order)
  {
    ListingOfKnownKeys(handlers, order);
    KeySetSize(order);
    assert KeySet(order) == handlers.Keys;
    forall k | k in handlers ensures Entry(handlers[k]) in Listing(handlers, order) {
      var i :| 0 <= i < |order| && order[i] == k;
      assert Listing(handlers, order)[i] == Entry(handlers[k]);
    }
  }

  /** The session's table has four entries. */
  lemma TableSize()
    ensures |Registry(GetCommands())| == 4
  {
    TableNames();
    GetIsNotSet();
    var one := {COMMAND_NAME};
    var two := one + {SELECT_NAME};
    var three := two + {GET_NAME};
    assert SELECT_NAME !in one by { assert |SELECT_NAME| != |COMMAND_NAME|; }
    assert GET_NAME !in two by { assert |GET_NAME| != |COMMAND_NAME| && |GET_NAME| != |SELECT_NAME|; }
    assert SET_NAME !in three by { assert |SET_NAME| != |COMMAND_NAME| && |SET_NAME| != |SELECT_NAME|; }
    assert {COMMAND_NAME, SELECT_NAME, GET_NAME, SET_NAME} == three + {SET_NAME};
  }

  /** For the session's table, COMMAND lists the four commands, each once. */
  lemma CommandListing(order: seq<Bytes>)
    requires Enumerates(order, Registry(GetCommands()).Keys)
    ensures |Listing(Registry(GetCommands()), order)| == 4
    ensures Entry(GetCommands()[0]) in Listing(Registry(GetCommands()), order)
    ensures Entry(GetCommands()[1]) in Listing(Registry(GetCommands()), order)
    ensures Entry(GetCommands()[2]) in Listing(Registry(GetCommands()), order)
    ensures Entry(GetCommands()[3]) in Listing(Registry(GetCommands()), order)
  {
    var specs := GetCommands();
    var table := Registry(specs);
    TableSize();
    CommandTable();
    ListingCoversHandlers(table, order);
    var listing := Listing(table, order);
    assert Entry(table[COMMAND_NAME]) in listing;
    assert Entry(table[SELECT_NAME]) in listing;
    assert Entry(table[GET_NAME]) in listing;
    assert Entry(table[SET_NAME]) in listing;
  }

  // ---------------------------------------------------------------------
  // SELECT

  /** Selecting a number succeeds exactly for the index of a database, and then selects it. */
  lemma SelectNumber(st: Store, n: i64, rest: seq<Value>)
    requires ValidStore(st)
    ensures Select(st, [Number(n)] + rest).result.Success? <==> 0 <= n < |st.maps|
    ensures 0 <= n < |st.maps| ==> Select(st, [Number(n)] + rest).store == st.(selected := n)
    ensures !(0 <= n < |st.maps|) ==> Select(st, [Number(n)] + rest) == Handled(st, Refused(ERR_DB_OUTOFRANGE))
  {
    assert ([Number(n)] + rest)[0] == Number(n);
  }

  /** A decimal index sent as text selects the same database as the number itself. */
  lemma SelectText(st: Store, n: i64, rest: seq<Value>)
    requires ValidStore(st)
    ensures Select(st, [Blob(FormatInt(n))] + rest) == Select(st, [Number(n)] + rest)
    ensures Select(st, [Simple(FormatInt(n))] + rest) == Select(st, [Number(n)] + rest)
  {
    FormatIntIsAscii(n);
    AsciiIsUtf8(FormatInt(n));
    ParseFormatInt(n);
    assert ([Blob(FormatInt(n))] + rest)[0] == Blob(FormatInt(n));
    assert ([Simple(FormatInt(n))] + rest)[0] == Simple(FormatInt(n));
    assert ([Number(n)] + rest)[0] == Number(n);
  }

  /**
   * Why SELECT fails: no argument, or text that is not UTF-8 (reported as
   * out of range), or an argument that is not a decimal number; a number
   * that names no database is out of range. A refusal keeps the selection.
   */
  lemma SelectReasons(st: Store, args: seq<Value>)
    requires ValidStore(st)
    ensures Select(st, args).result == Refused(SELECT_ARITY) <==> args == []
    ensures Select(st, args).result == Refused(ERR_DB_INDEX) <==>
      args != [] && ((StringArg(args[0]).None? && !args[0].Number?) ||
                     (StringArg(args[0]).Some? && ValidUtf8(args[0].payload) && ParseI64(args[0].payload).None?))
    ensures args != [] && StringArg(args[0]).Some? && !ValidUtf8(args[0].payload) ==>
      Select(st, args).result == Refused(ERR_DB_OUTOFRANGE)
    ensures Select(st, args).result.Refused? ==> Select(st, args).store == st
  {
    assert |SELECT_ARITY| != |ERR_DB_INDEX| && |ERR_DB_INDEX| != |ERR_DB_OUTOFRANGE| && |SELECT_ARITY| != |ERR_DB_OUTOFRANGE|;
  }

  /** With four databases: `SELECT 3` answers OK, `SELECT 4` is out of range and `SELECT abc` is an invalid index. */
  lemma SelectBounds(st: Store)
    requires ValidStore(st) && |st.maps| == 4
    ensures Select(st, [Number(3)]) == Handled(st.(selected := 3), Success(Simple(OK)))
    ensures Select(st, [Number(4)]) == Handled(st, Refused(ERR_DB_OUTOFRANGE))
    ensures Select(st, [Blob(Str("abc"))]) == Handled(st, Refused(ERR_DB_INDEX))
  {
    SelectNumber(st, 3, []);
    SelectNumber(st, 4, []);
    assert [Number(3)] + [] == [Number(3)] && [Number(4)] + [] == [Number(4)];
    StrAscii("abc");
    assert !IsDigit(Str("abc")[0]);
  }

  // ---------------------------------------------------------------------
  // GET and SET

  /**
   * Why SET fails, in the order it checks: a missing key, a key that is not
   * a string, a missing value, a value that is not a string. Otherwise it
   * succeeds; a refusal changes nothing.
   */
  lemma SetReasons(st: Store, args: seq<Value>)
    requires ValidStore(st)
    ensures Set(st, args).result == Refused(SET_ARITY) <==> |args| == 0 || (|args| == 1 && StringArg(args[0]).Some?)
    ensures Set(st, args).result == Refused(ERR_INVALID_KEY) <==> |args| > 0 && StringArg(args[0]).None?
    ensures Set(st, args).result == Refused(ERR_INVALID_VAL) <==>
      |args| > 1 && StringArg(args[0]).Some? && StringArg(args[1]).None?
    ensures Set(st, args).result.Success? <==> |args| > 1 && StringArg(args[0]).Some? && StringArg(args[1]).Some?
  {
    assert |SET_ARITY| != |ERR_INVALID_KEY| && |ERR_INVALID_KEY| != |ERR_INVALID_VAL| && |SET_ARITY| != |ERR_INVALID_VAL|;
  }

  /** Why GET fails: a missing key, or a key that is not a string; a GET never changes the store. */
  lemma GetReasons(st: Store, args: seq<Value>)
    requires ValidStore(st)
    ensures Get(st, args) == Refused(GET_ARITY) <==> args == []
    ensures Get(st, args) == Refused(ERR_INVALID_KEY) <==> args != [] && StringArg(args[0]).None?
    ensures Get(st, args).Success? <==> args != [] && StringArg(args[0]).Some?
    ensures Get(st, args).Success? ==> Get(st, args).value.Blob? || Get(st, args).value.Null?
    ensures Get(st, args).Success? && args[0].payload in st.maps[st.selected] ==>
      Get(st, args).value == Blob(st.maps[st.selected][args[0].payload])
    ensures Get(st, args).Success? ==> (Get(st, args).value == Null <==> args[0].payload !in st.maps[st.selected])
  {
    assert |GET_ARITY| != |ERR_INVALID_KEY|;
  }

  /** On a database just created, every GET of a string key answers null, whichever database is selected. */
  lemma GetOnFreshDatabase(databases: int, d: Database, selected: nat, args: seq<Value>)
    requires |d.dbs| == DatabaseCount(databases)
    requires forall i :: 0 <= i < |d.dbs| ==> d.dbs[i].storage == map[]
    requires selected < |d.dbs|
    requires args != [] && StringArg(args[0]).Some?
    ensures ValidStore(Store(d.Maps(), selected))
    ensures Get(Store(d.Maps(), selected), args) == Success(Null)
  {
    FreshStore(databases, d);
  }

  /** A successful SET writes its key in the selected database and nothing else. */
  lemma SetFrame(st: Store, k: Value, v: Value, rest: seq<Value>)
    requires ValidStore(st) && StringArg(k).Some? && StringArg(v).Some?
    ensures var after := Set(st, [k, v] + rest).store;
      after.selected == st.selected && |after.maps| == |st.maps| &&
      after.maps[st.selected] == st.maps[st.selected][k.payload := v.payload] &&
      forall j :: 0 <= j < |st.maps| && j != st.selected ==> after.maps[j] == st.maps[j]
  {
    assert ([k, v] + rest)[0] == k && ([k, v] + rest)[1] == v;
  }

  /** GET after SET of the same key in the same database reads the value back. */
  lemma GetAfterSet(st: Store, k: Value, v: Value, rest: seq<Value>, k2: Value, rest2: seq<Value>)
    requires ValidStore(st) && StringArg(k).Some? && StringArg(v).Some?
    requires StringArg(k2) == StringArg(k)
    ensures Get(Set(st, [k, v] + rest).store, [k2] + rest2) == Success(Blob(v.payload))
  {
    SetFrame(st, k, v, rest);
    assert ([k2] + rest2)[0] == k2;
  }

  /** GET of another key is not affected by a SET. */
  lemma GetOtherAfterSet(st: Store, k: Value, v: Value, rest: seq<Value>, args: seq<Value>)
    requires ValidStore(st) && StringArg(k).Some? && StringArg(v).Some?
    requires args != [] && StringArg(args[0]) != StringArg(k)
    ensures Get(Set(st, [k, v] + rest).store, args) == Get(st, args)
  {
    SetFrame(st, k, v, rest);
  }

  /** Repeating a SET changes nothing more. */
  lemma SetIdempotent(st: Store, args: seq<Value>)
    requires ValidStore(st)
    ensures Set(Set(st, args).store, args) == Set(st, args)
  {
    if Set(st, args).result.Success? {
      var m := st.maps[st.selected];
      var key, value := args[0].payload, args[1].payload;
      assert m[key := value][key := value] == m[key := value];
      assert st.maps[st.selected := m[key := value]][st.selected := m[key := value]] == st.maps[st.selected := m[key := value]];
    }
  }

  // ---------------------------------------------------------------------
  // Dispatch

  /** Replies to requests of the wrong shape; none of them changes the store. */
  lemma MalformedRequests(st: Store, handlers: map<Bytes, CommandSpec>, request: Value, show: Value -> Bytes, order: seq<Bytes>)
    requires ValidStore(st)
    ensures !request.Array? ==>
      Dispatch(st, handlers, request, show, order) == Exchange(st, ErrValue(INVALID_REQUEST + show(request)))
    ensures request == Array([]) ==>
      Dispatch(st, handlers, request, show, order) == Exchange(st, ErrValue(INVALID_REQUEST + EMPTY_ITER))
    ensures request.Array? && |request.elems| > 0 && StringArg(request.elems[0]).None? ==>
      Dispatch(st, handlers, request, show, order) == Exchange(st, ErrValue(INVALID_COMMAND + SEPARATOR + show(request.elems[0])))
    ensures request.Array? && |request.elems| > 0 && StringArg(request.elems[0]).Some? && !ValidUtf8(request.elems[0].payload) ==>
      Dispatch(st, handlers, request, show, order) == Exchange(st, ErrValue(INVALID_COMMAND))
  {
  }

  /**
   * Every error reply carries the code `ERR`, and a request answered with
   * an error leaves every database and the selection as they were.
   */
  lemma ErrorsChangeNothing(st: Store, handlers: map<Bytes, CommandSpec>, request: Value, show: Value -> Bytes, order: seq<Bytes>)
    requires ValidStore(st)
    ensures var x := Dispatch(st, handlers, request, show, order);
      x.reply.Err? ==> x.reply.code == Str("ERR") && x.store == st
  {
    match RouteOf(request, show, handlers)
    case Rejected(_) =>
    case Routed(spec, args) =>
      var h := Execute(st, spec, args, handlers, order);
      if spec.handler.GetHandler? {
        GetReasons(st, args);
      }
  }

  /** Command names are looked up ignoring the case of ASCII letters, whatever string type carries them. */
  lemma DispatchIgnoresCase(st: Store, handlers: map<Bytes, CommandSpec>, c1: Value, c2: Value, args: seq<Value>, show: Value -> Bytes, order: seq<Bytes>)
    requires ValidStore(st)
    requires StringArg(c1).Some? && StringArg(c2).Some? && EqualIgnoringCase(c1.payload, c2.payload)
    ensures Dispatch(st, handlers, Array([c1] + args), show, order) == Dispatch(st, handlers, Array([c2] + args), show, order)
  {
    CaseKeepsUtf8(c1.payload, c2.payload);
    UpperIdentifiesCase(c1.payload, c2.payload);
    assert ([c1] + args)[0] == c1 && ([c1] + args)[1..] == args;
    assert ([c2] + args)[0] == c2 && ([c2] + args)[1..] == args;
  }

  /** With the session's table, a name that is none of the four commands gets the unknown-command reply. */
  lemma UnknownCommands(st: Store, c: Value, args: seq<Value>, show: Value -> Bytes, order: seq<Bytes>)
    requires ValidStore(st)
    requires StringArg(c).Some? && ValidUtf8(c.payload)
    requires Upper(c.payload) !in {COMMAND_NAME, SELECT_NAME, GET_NAME, SET_NAME}
    ensures Dispatch(st, Registry(GetCommands()), Array([c] + args), show, order)
         == Exchange(st, ErrValue(UnknownCommand(Upper(c.payload), args, show)))
  {
    CommandTable();
    assert ([c] + args)[0] == c && ([c] + args)[1..] == args;
  }

  /** A string naming a registered command, in UTF-8, routes to that command with the remaining elements. */
  lemma RoutedByName(c: Value, args: seq<Value>, show: Value -> Bytes, handlers: map<Bytes, CommandSpec>)
    requires StringArg(c).Some? && ValidUtf8(c.payload) && Upper(c.payload) in handlers
    ensures RouteOf(Array([c] + args), show, handlers) == Routed(handlers[Upper(c.payload)], args)
  {
    assert ([c] + args)[0] == c && ([c] + args)[1..] == args;
  }

  /** A request naming a registered command, in any case, runs that command's handler on the remaining elements. */
  lemma KnownCommand(st: Store, name: Bytes, c: Value, args: seq<Value>, show: Value -> Bytes, order: seq<Bytes>)
    requires ValidStore(st)
    requires name in Registry(GetCommands())
    requires StringArg(c).Some? && EqualIgnoringCase(c.payload, name)
    ensures var table := Registry(GetCommands());
      var h := Execute(st, table[name], args, table, order);
      Dispatch(st, table, Array([c] + args), show, order) == Exchange(h.store, Reply(h.result))
  {
    TableName(name);
    UpperIdentifiesCase(c.payload, name);
    CaseKeepsUtf8(c.payload, name);
    RoutedByName(c, args, show, Registry(GetCommands()));
  }

  /** Through the session's table: `SET k v` answers OK, and a following `GET k` — in any case — answers with v. */
  lemma SetThenGetRequests(st: Store, setName: Value, getName: Value, k: Value, v: Value, show: Value -> Bytes, order: seq<Bytes>)
    requires ValidStore(st)
    requires StringArg(setName).Some? && EqualIgnoringCase(setName.payload, SET_NAME)
    requires StringArg(getName).Some? && EqualIgnoringCase(getName.payload, GET_NAME)
    requires StringArg(k).Some? && StringArg(v).Some?
    ensures var table := Registry(GetCommands());
      var first := Dispatch(st, table, Array([setName, k, v]), show, order);
      first.reply == Simple(OK) &&
      Dispatch(first.store, table, Array([getName, k]), show, order) == Exchange(first.store, Blob(v.payload))
  {
    var table := Registry(GetCommands());
    CommandTable();
    KnownCommand(st, SET_NAME, setName, [k, v], show, order);
    assert [setName, k, v] == [setName] + [k, v];
    SetReasons(st, [k, v]);
    var after := Set(st, [k, v]).store;
    KnownCommand(after, GET_NAME, getName, [k], show, order);
    assert [getName, k] == [getName] + [k];
    GetAfterSet(st, k, v, [], k, []);
    assert [k, v] + [] == [k, v] && [k] + [] == [k];
  }

  // ---------------------------------------------------------------------
  // The session

  /** `Session`: the handler table, the database and the index of the selected database. */
  class Session {
    const handlers: map<Bytes, CommandSpec>
    const db: Database
    var selected: nat

    ghost predicate Valid()
      reads this, db
    {
      db.Valid() && selected < |db.dbs|
    }

    /** The store this session sees. */
    ghost function State(): Store
      reads this, db, db.dbs
    {
      Store(db.Maps(), selected)
    }

    /** The first database selected. */
    constructor (db: Database, handlers: map<Bytes, CommandSpec>)
      requires db.Valid()
      ensures Valid() && this.db == db && this.handlers == handlers && selected == 0
    {
      this.db := db;
      this.handlers := handlers;
      selected := 0;
    }

    /** `Session::handle_request`: one reply per request; `order` is the handler map's iteration order. */
    method HandleRequest(request: Value, show: Value -> Bytes, order: seq<Bytes>) returns (reply: Value)
      requires Valid()
      modifies this, db.dbs
      ensures Valid()
      ensures Exchange(State(), reply) == Dispatch(old(State()), handlers, request, show, order)
    {
      match RouteOf(request, show, handlers)
      case Rejected(r) =>
        reply := r;
      case Routed(spec, args) =>
        var outcome: Outcome<Value>;
        match spec.handler {
          case CommandHandler =>
            outcome := HandleCommand(args, order);
          case SelectHandler =>
            outcome := HandleSelect(args);
          case GetHandler =>
            outcome := HandleGet(args);
          case SetHandler =>
            outcome := HandleSet(args);
        }
        reply := Reply(outcome);
    }

    /** `handle_command`: describes every registered command and ignores its arguments. */
    method HandleCommand(args: seq<Value>, order: seq<Bytes>) returns (r: Outcome<Value>)
      ensures r == Success(Array(Listing(handlers, order)))
    {
      var entries: seq<Value> := [];
      for i := 0 to |order|
        invariant entries == Listing(handlers, order[..i])
      {
        assert order[..i + 1][..i] == order[..i];
        if order[i] in handlers {
          entries := entries + [Entry(handlers[order[i]])];
        }
      }
      assert order[..|order|] == order;
      r := Success(Array(entries));
    }

    /** `handle_select`: selects the database the first argument names. */
    method HandleSelect(args: seq<Value>) returns (r: Outcome<Value>)
      requires Valid()
      modifies this
      ensures Valid()
      ensures Handled(State(), r) == Select(old(State()), args)
    {
      var target := TargetIndex(args);
      if target.Refused? {
        return Refused(target.reason);
      }
      var handle := db.Get(target.value);
      if handle.None? {
        return Refused(ERR_DB_OUTOFRANGE);
      }
      selected := handle.value;
      r := Success(Simple(OK));
    }

    /** `handle_get`: reads the first argument's key from the selected database. */
    method HandleGet(args: seq<Value>) returns (r: Outcome<Value>)
      requires Valid()
      ensures r == Get(State(), args)
    {
      if |args| == 0 {
        return Refused(GET_ARITY);
      }
      var key := StringArg(args[0]);
      if key.None? {
        return Refused(ERR_INVALID_KEY);
      }
      var storage := db.dbs[selected].storage;
      r := Success(if key.value in storage then Blob(storage[key.value]) else Null);
    }

    /** `handle_set`: stores the second argument under the first in the selected database. */
    method HandleSet(args: seq<Value>) returns (r: Outcome<Value>)
      requires Valid()
      modifies db.dbs[selected]
      ensures Valid()
      ensures Handled(State(), r) == Set(old(State()), args)
    {
      if |args| == 0 {
        return Refused(SET_ARITY);
      }
      var key := StringArg(args[0]);
      if key.None? {
        return Refused(ERR_INVALID_KEY);
      }
      if |args| < 2 {
        return Refused(SET_ARITY);
      }
      var value := StringArg(args[1]);
      if value.None? {
        return Refused(ERR_INVALID_VAL);
      }
      var target := db.dbs[selected];
      target.storage := target.storage[key.value := value.value];
      r := Success(Simple(OK));
      assert db.Maps() == old(db.Maps())[selected := old(db.Maps())[selected][key.value := value.value]];
    }
  }

  /** `SessionFactory`. */
  class SessionFactory {
    const database: Database

    constructor (database: Database)
      ensures this.database == database
    {
      this.database := database;
    }

    /** `create_session`: the full handler table, with the first database selected. */
    method CreateSession() returns (s: Session)
      requires database.Valid()
      ensures fresh(s) && s.Valid() && s.db == database && s.selected == 0
      ensures s.handlers == Registry(GetCommands())
    {
      var commands := GetCommands();
      var handlers: map<Bytes, CommandSpec> := map[];
      for i := 0 to |commands|
        invariant handlers == Registry(commands[..i])
      {
        assert commands[..i + 1][..i] == commands[..i];
        handlers := handlers[Upper(commands[i].name) := commands[i]];
      }
      assert commands[..|commands|] == commands;
      s := new Session(database, handlers);
    }
  }
}

/** `DBStorage` of `models/engine/db_storage.py`: connection settings read from the
    environment, the `all` query fold, and the bookkeeping of the one session the
    engine holds. The database is an abstract snapshot: the tables that exist and
    the durable history of committed changes. What a query returns is the input
    `query`, one row list per entity kind; SQLAlchemy's own semantics are not
    modelled. */
module DbStorage {
  import opened Outcomes
  import opened Text

  /** The six mapped classes. */
  datatype Kind = User | State | City | Amenity | Place | Review

  /** `type(row).__name__`. */
  function KindName(k: Kind): string
  {
    match k
    case User => "User"
    case State => "State"
    case City => "City"
    case Amenity => "Amenity"
    case Place => "Place"
    case Review => "Review"
  }

  /** The class whose name is `name`, if any. */
  function KindNamed(name: string): Option<Kind>
  {
    if name == "User" then Some(User)
    else if name == "State" then Some(State)
    else if name == "City" then Some(City)
    else if name == "Amenity" then Some(Amenity)
    else if name == "Place" then Some(Place)
    else if name == "Review" then Some(Review)
    else None
  }

  /** A mapped object: its class, its `id` and its remaining attributes. */
  datatype Row = Row(kind: Kind, id: string, attrs: map<string, string>)

  /** Splits a key at its first `.` back into class and id. */
  function ParseKey(key: string): Option<(Kind, string)>
  {
    var (name, found, id) := Partition(key, '.');
    if !found then None
    else match KindNamed(name)
      case None => None
      case Some(k) => Some((k, id))
  }

  /** The `all` key `"<ClassName>.<id>"`. */
  function Key(row: Row): string
  {
    KindName(row.kind) + "." + row.id
  }

  /** A key names its row's class and id, even when the id itself holds dots:
      splitting it at its first `.` gives them back. */
  lemma KeyReadsBack(row: Row)
    ensures ParseKey(Key(row)) == Some((row.kind, row.id))
  {
    var name := KindName(row.kind);
    assert '.' !in name;
    PartitionAt(name, '.', row.id);
  }

  /** Hence two rows share a key exactly when they share class and id. */
  lemma KeyInjective(a: Row, b: Row)
    ensures Key(a) == Key(b) <==> a.kind == b.kind && a.id == b.id
  {
    KeyReadsBack(a);
    KeyReadsBack(b);
  }

  // ---------------------------------------------------------------------------
  // Connection settings (`__init__`)

  datatype Config = Config(user: string, pwd: string, host: string, db: string, env: string)

  /** `environ.get(key, default)`. */
  function EnvGet(environ: map<string, string>, key: string, default: string): string
  {
    if key in environ then environ[key] else default
  }

  /** The five settings, each read from its variable or defaulted. */
  function ReadConfig(environ: map<string, string>): (c: Config)
    ensures "HBNB_MYSQL_USER" !in environ ==> c.user == "root"
    ensures "HBNB_MYSQL_PWD" !in environ ==> c.pwd == ""
    ensures "HBNB_MYSQL_HOST" !in environ ==> c.host == "localhost"
    ensures "HBNB_MYSQL_DB" !in environ ==> c.db == "hbnb_dev"
    ensures "HBNB_ENV" !in environ ==> c.env == "development"
    ensures "HBNB_MYSQL_USER" in environ ==> c.user == environ["HBNB_MYSQL_USER"]
    ensures "HBNB_MYSQL_PWD" in environ ==> c.pwd == environ["HBNB_MYSQL_PWD"]
    ensures "HBNB_MYSQL_HOST" in environ ==> c.host == environ["HBNB_MYSQL_HOST"]
    ensures "HBNB_MYSQL_DB" in environ ==> c.db == environ["HBNB_MYSQL_DB"]
    ensures "HBNB_ENV" in environ ==> c.env == environ["HBNB_ENV"]
  {
    Config(
      EnvGet(environ, "HBNB_MYSQL_USER", "root"),
      EnvGet(environ, "HBNB_MYSQL_PWD", ""),
      EnvGet(environ, "HBNB_MYSQL_HOST", "localhost"),
      EnvGet(environ, "HBNB_MYSQL_DB", "hbnb_dev"),
      EnvGet(environ, "HBNB_ENV", "development"))
  }

  const Scheme := "mysql+mysqldb://"

  /** The URL handed to `create_engine`. The settings are pasted in without escaping. */
  function ConnectionUrl(c: Config): (r: string)
    ensures |r| == |Scheme| + |c.user| + |c.pwd| + |c.host| + |c.db| + 3
    ensures r[..|Scheme|] == Scheme
  {
    Scheme + c.user + ":" + c.pwd + "@" + c.host + "/" + c.db
  }

  datatype UrlParts = UrlParts(user: string, pwd: string, host: string, db: string)

  /** Reads a URL of that shape back: user up to the first `:`, password up to the
      next `@`, host up to the next `/`, database name the rest. */
  function ParseUrl(url: string): Option<UrlParts>
  {
    if |url| < |Scheme| || url[..|Scheme|] != Scheme then None
    else
      var (user, f1, r1) := Partition(url[|Scheme|..], ':');
      var (pwd, f2, r2) := Partition(r1, '@');
      var (host, f3, db) := Partition(r2, '/');
      if f1 && f2 && f3 then Some(UrlParts(user, pwd, host, db)) else None
  }

  /** The URL determines the settings it was built from, provided the user holds no
      `:`, the password no `@` and the host no `/`. */
  lemma ConnectionUrlReadsBack(c: Config)
    requires ':' !in c.user && '@' !in c.pwd && '/' !in c.host
    ensures ParseUrl(ConnectionUrl(c)) == Some(UrlParts(c.user, c.pwd, c.host, c.db))
  {
    var url := ConnectionUrl(c);
    var r2 := c.host + "/" + c.db;
    var r1 := c.pwd + "@" + r2;
    var r0 := c.user + ":" + r1;
    assert url == Scheme + r0;
    assert url[|Scheme|..] == r0;
    PartitionAt(c.user, ':', r1);
    PartitionAt(c.pwd, '@', r2);
    PartitionAt(c.host, '/', c.db);
  }

  /** Without escaping, an `@` in the password is indistinguishable from one in the
      host: these two different settings give the same URL. */
  lemma ConnectionUrlAmbiguous(user: string, p: string, h: string, x: string, db: string, env: string)
    ensures ConnectionUrl(Config(user, p + "@" + h, x, db, env))
         == ConnectionUrl(Config(user, p, h + "@" + x, db, env))
  {
  }

  // ---------------------------------------------------------------------------
  // Storage state

  datatype Change = Added(row: Row) | Deleted(row: Row)

  /** The tables that exist and the committed changes, oldest first. */
  datatype Database = Database(tables: set<Kind>, durable: seq<Change>)

  /** A session: `serial` tells sessions apart, `pending` holds the adds and deletes
      not yet committed. */
  datatype Session = Session(serial: nat, pending: seq<Change>)

  /** The engine's URL, the database behind it, the current session (`None` until the
      first `reload`), and how many sessions `reload` has made. */
  datatype Storage = Storage(url: string, db: Database, session: Option<Session>, made: nat)

  /** Using `self.__session` while it is still `None` raises AttributeError. */
  datatype StorageError = NoSession

  /** Every session the storage holds was made by an earlier `reload`. */
  predicate Inv(st: Storage)
  {
    st.session.Some? ==> st.session.value.serial < st.made
  }

  /** `DBStorage()`: builds the URL from the environment, drops every table when the
      mode is `test`, and holds no session yet. */
  function Init(environ: map<string, string>, db: Database): (st: Storage)
    ensures st.session.None? && Inv(st)
    ensures st.url == ConnectionUrl(ReadConfig(environ))
    ensures ReadConfig(environ).env == "test" ==> st.db.tables == {} && st.db.durable == []
    ensures ReadConfig(environ).env != "test" ==> st.db == db
  {
    var c := ReadConfig(environ);
    var db' := if c.env == "test" then Database({}, []) else db;
    Storage(ConnectionUrl(c), db', None, 0)
  }

  /** The classes `all(cls)` queries: all six, in declaration order, when `cls` is
      `None`, only `cls` otherwise; never one twice. */
  function Selected(cls: Option<Kind>): (ks: seq<Kind>)
    ensures cls.None? ==> ks == [User, State, City, Amenity, Place, Review]
    ensures cls.Some? ==> ks == [cls.value]
    ensures forall i, j :: 0 <= i < j < |ks| ==> ks[i] != ks[j]
  {
    if cls.None? then [User, State, City, Amenity, Place, Review] else [cls.value]
  }

  /** `all()` without a class covers every mapped class. */
  lemma EveryKindSelected(k: Kind)
    ensures k in Selected(None)
  {
    match k
    case User =>
    case State =>
    case City =>
    case Amenity =>
    case Place =>
    case Review =>
  }

  /** The rows the queries of `kinds` return, one class after the other. */
  function RowsOf(kinds: seq<Kind>, query: Kind -> seq<Row>): (rows: seq<Row>)
    ensures forall row :: row in rows <==> exists k :: k in kinds && row in query(k)
  {
    if |kinds| == 0 then []
    else query(kinds[0]) + RowsOf(kinds[1..], query)
  }

  /** The keys of `rows`. */
  function KeysOf(rows: seq<Row>): set<string>
  {
    set i | 0 <= i < |rows| :: Key(rows[i])
  }

  /** `obj_dict[key] = row` for each row in turn. */
  function Collect(acc: map<string, Row>, rows: seq<Row>): (r: map<string, Row>)
    ensures acc.Keys <= r.Keys
    ensures |rows| > 0 ==> Key(Last(rows)) in r && r[Key(Last(rows))] == Last(rows)
    decreases |rows|
  {
    if |rows| == 0 then acc
    else Collect(acc[Key(rows[0]) := rows[0]], rows[1..])
  }

  lemma KeysOfCons(rows: seq<Row>)
    requires |rows| > 0
    ensures KeysOf(rows) == {Key(rows[0])} + KeysOf(rows[1..])
  {
    var tail := rows[1..];
    forall k | k in KeysOf(rows) ensures k in {Key(rows[0])} + KeysOf(tail) {
      var i :| 0 <= i < |rows| && Key(rows[i]) == k;
      if i > 0 {
        assert Key(tail[i - 1]) == k;
      }
    }
    forall k | k in KeysOf(tail) ensures k in KeysOf(rows) {
      var i :| 0 <= i < |tail| && Key(tail[i]) == k;
      assert Key(rows[i + 1]) == k;
    }
  }

  /** The fold holds the keys of `acc` and of `rows`, and a key no row has keeps its
      value from `acc`. */
  lemma {:induction false} CollectKeys(acc: map<string, Row>, rows: seq<Row>)
    ensures Collect(acc, rows).Keys == acc.Keys + KeysOf(rows)
    ensures forall k :: k in acc && k !in KeysOf(rows) ==> Collect(acc, rows)[k] == acc[k]
    decreases |rows|
  {
    if |rows| > 0 {
      CollectKeys(acc[Key(rows[0]) := rows[0]], rows[1..]);
      KeysOfCons(rows);
    }
  }

  /** A key that no row has is not among the rows' keys. */
  lemma KeyNotAmong(rows: seq<Row>, k: string)
    requires forall j :: 0 <= j < |rows| ==> Key(rows[j]) != k
    ensures k !in KeysOf(rows)
  {
  }

  /** A later row replaces an earlier one under the same key: a key maps to the last
      row that has it. */
  lemma {:induction false} CollectLastWins(acc: map<string, Row>, rows: seq<Row>, i: nat)
    requires i < |rows|
    requires forall j :: i < j < |rows| ==> Key(rows[j]) != Key(rows[i])
    ensures Key(rows[i]) in Collect(acc, rows)
    ensures Collect(acc, rows)[Key(rows[i])] == rows[i]
    decreases |rows|
  {
    var k := Key(rows[i]);
    var acc' := acc[Key(rows[0]) := rows[0]];
    var tail := rows[1..];
    if i == 0 {
      assert forall j :: 0 <= j < |tail| ==> tail[j] == rows[j + 1];
      KeyNotAmong(tail, k);
      CollectKeys(acc', tail);
    } else {
      assert tail[i - 1] == rows[i];
      assert forall j :: i - 1 < j < |tail| ==> tail[j] == rows[j + 1];
      CollectLastWins(acc', tail, i - 1);
    }
  }

  /** Every value of the fold is one of the rows or comes from `acc`, and is stored
      under its own key when `acc`'s values are. */
  lemma {:induction false} CollectValues(acc: map<string, Row>, rows: seq<Row>)
    ensures forall k :: k in Collect(acc, rows) ==>
      Collect(acc, rows)[k] in rows || (k in acc && Collect(acc, rows)[k] == acc[k])
    ensures (forall k :: k in acc ==> Key(acc[k]) == k) ==>
      forall k :: k in Collect(acc, rows) ==> Key(Collect(acc, rows)[k]) == k
    decreases |rows|
  {
    if |rows| > 0 {
      var acc' := acc[Key(rows[0]) := rows[0]];
      CollectValues(acc', rows[1..]);
      var r := Collect(acc, rows);
      assert r == Collect(acc', rows[1..]);
      forall k | k in r ensures r[k] in rows || (k in acc && r[k] == acc[k]) {
        if r[k] in rows[1..] {
          assert r[k] in rows;
        }
      }
    }
  }

  /** `all(cls)`: with a session, every row the selected queries return, keyed by
      `"<ClassName>.<id>"`, with a later row replacing an earlier one under the same
      key; without one, AttributeError. Querying changes nothing. */
  function All(st: Storage, cls: Option<Kind>, query: Kind -> seq<Row>): (r: Result<map<string, Row>, StorageError>)
    ensures st.session.None? <==> r.Err?
    ensures r.Ok? ==> r.value.Keys == KeysOf(RowsOf(Selected(cls), query))
    ensures r.Ok? ==> forall key :: key in r.value ==> Key(r.value[key]) == key
    ensures r.Ok? ==> forall key :: key in r.value ==>
      exists k :: k in Selected(cls) && r.value[key] in query(k)
  {
    if st.session.None? then Err(NoSession)
    else
      CollectKeys(map[], RowsOf(Selected(cls), query));
      CollectValues(map[], RowsOf(Selected(cls), query));
      Ok(Collect(map[], RowsOf(Selected(cls), query)))
  }

  /** `new(obj)`: queues an add in the current session. */
  function New(st: Storage, obj: Row): (r: Result<Storage, StorageError>)
    ensures st.session.None? <==> r.Err?
    ensures r.Ok? ==>
      && r.value.db == st.db && r.value.url == st.url && r.value.made == st.made
      && r.value.session == Some(Session(st.session.value.serial, st.session.value.pending + [Added(obj)]))
  {
    match st.session
    case None => Err(NoSession)
    case Some(s) => Ok(st.(session := Some(s.(pending := s.pending + [Added(obj)]))))
  }

  /** `save()`: commits the session's pending changes, in order, and leaves it with
      none pending. */
  function Save(st: Storage): (r: Result<Storage, StorageError>)
    ensures st.session.None? <==> r.Err?
    ensures r.Ok? ==>
      && r.value.db.tables == st.db.tables
      && r.value.db.durable == st.db.durable + st.session.value.pending
      && r.value.session == Some(Session(st.session.value.serial, []))
      && r.value.url == st.url && r.value.made == st.made
  {
    match st.session
    case None => Err(NoSession)
    case Some(s) =>
      Ok(st.(db := st.db.(durable := st.db.durable + s.pending), session := Some(s.(pending := []))))
  }

  /** `delete(obj)`: nothing at all for `None`, even before the first `reload`;
      otherwise queues a delete in the current session. */
  function Delete(st: Storage, obj: Option<Row>): (r: Result<Storage, StorageError>)
    ensures obj.None? ==> r == Ok(st)
    ensures obj.Some? ==> (st.session.None? <==> r.Err?)
    ensures obj.Some? && r.Ok? ==>
      && r.value.db == st.db && r.value.url == st.url && r.value.made == st.made
      && r.value.session == Some(Session(st.session.value.serial, st.session.value.pending + [Deleted(obj.value)]))
  {
    match obj
    case None => Ok(st)
    case Some(o) =>
      match st.session
      case None => Err(NoSession)
      case Some(s) => Ok(st.(session := Some(s.(pending := s.pending + [Deleted(o)]))))
  }

  /** `reload()`: creates the missing tables, keeps every existing one and the
      committed data, and installs a fresh session with nothing pending, distinct from
      every session before it. */
  function Reload(st: Storage): (r: Storage)
    ensures r.db.tables == st.db.tables + {User, State, City, Amenity, Place, Review}
    ensures r.db.durable == st.db.durable && r.url == st.url
    ensures r.session.Some? && r.session.value.pending == []
    ensures Inv(st) ==> Inv(r)
    ensures Inv(st) && st.session.Some? ==> r.session.value.serial > st.session.value.serial
    ensures r.made > st.made && r.session.value.serial >= st.made
  {
    var tables := st.db.tables + {User, State, City, Amenity, Place, Review};
    Storage(st.url, st.db.(tables := tables), Some(Session(st.made, [])), st.made + 1)
  }

  /** `close()`: releases the session, discarding what it had pending; the storage
      keeps referring to it, so later calls go on using it. */
  function Close(st: Storage): (r: Result<Storage, StorageError>)
    ensures st.session.None? <==> r.Err?
    ensures r.Ok? ==>
      && r.value.db == st.db && r.value.url == st.url && r.value.made == st.made
      && r.value.session == Some(Session(st.session.value.serial, []))
  {
    match st.session
    case None => Err(NoSession)
    case Some(s) => Ok(st.(session := Some(s.(pending := []))))
  }

  // ---------------------------------------------------------------------------
  // Properties over several calls

  /** Before the first `reload` every session operation fails, except `delete(None)`,
      which does nothing. */
  lemma NothingBeforeReload(environ: map<string, string>, db: Database, cls: Option<Kind>,
                            query: Kind -> seq<Row>, obj: Row)
    ensures var st := Init(environ, db);
      && All(st, cls, query).Err? && New(st, obj).Err? && Save(st).Err?
      && Delete(st, Some(obj)).Err? && Delete(st, None) == Ok(st)
      && Close(st).Err?
  {
  }

  /** Every operation keeps the session invariant. */
  lemma OperationsKeepInv(st: Storage, obj: Row)
    requires Inv(st)
    ensures New(st, obj).Ok? ==> Inv(New(st, obj).value)
    ensures Save(st).Ok? ==> Inv(Save(st).value)
    ensures Delete(st, Some(obj)).Ok? ==> Inv(Delete(st, Some(obj)).value)
    ensures Close(st).Ok? ==> Inv(Close(st).value)
    ensures Inv(Reload(st))
  {
  }

  /** An add that is not saved before the next `reload` is gone: nothing was
      committed, and the new session has nothing pending. */
  lemma UnsavedAddLostOnReload(st: Storage, obj: Row)
    requires st.session.Some?
    ensures var r := Reload(New(st, obj).value);
      r.db.durable == st.db.durable && r.session.value.pending == []
  {
  }

  /** An add followed by `save` is committed last and survives `reload`. */
  lemma SavedAddSurvivesReload(st: Storage, obj: Row)
    requires st.session.Some?
    ensures var r := Reload(Save(New(st, obj).value).value);
      && |r.db.durable| > 0 && Last(r.db.durable) == Added(obj)
      && r.db.durable == st.db.durable + st.session.value.pending + [Added(obj)]
  {
  }

  /** A delete is not durable until `save`. */
  lemma DeleteNeedsSave(st: Storage, obj: Row)
    requires st.session.Some?
    ensures Delete(st, Some(obj)).value.db == st.db
    ensures Save(Delete(st, Some(obj)).value).value.db.durable
         == st.db.durable + st.session.value.pending + [Deleted(obj)]
  {
  }

  /** A row that a selected class's query returns has an entry under its key in
      the result of `all`. */
  lemma AllFindsRow(st: Storage, cls: Option<Kind>, query: Kind -> seq<Row>, obj: Row)
    requires st.session.Some?
    requires cls.None? || cls == Some(obj.kind)
    requires obj in query(obj.kind)
    ensures Key(obj) in All(st, cls, query).value
  {
    EveryKindSelected(obj.kind);
    var rows := RowsOf(Selected(cls), query);
    assert obj in rows;
    var i :| 0 <= i < |rows| && rows[i] == obj;
    assert Key(rows[i]) in KeysOf(rows);
  }
}

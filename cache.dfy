/** The add-on's sqlite cache (`write_db`, `query_db`, `clear_db` in Utils.py):
    named tables of rows keyed by the digest of a URL, each row holding a
    Base64-encoded value, a type tag and an expiry time in whole seconds. The
    clock, the `cache_days` period (as whole seconds) and the digest are inputs. */
module Cache {
  import opened Wrappers
  import opened Text
  import Base64

  /** `hashlib.md5(url).hexdigest()`, not modelled. */
  type Digest = string -> string

  /** A row: `cache_val` (Base64 text), `cache_type` and `expire`. */
  datatype Row = Row(val: string, tag: string, expire: int)

  type Table = map<string, Row>
  type Tables = map<string, Table>

  /** What the caller passes as `cache_val`: a `str`, a `list` or `dict` (with
      the text `json.dumps` gives for it, `None` when it raises, and the text
      `str` gives for it), or anything else. */
  datatype Value = Str(s: string) | Structured(dumped: Option<string>, shown: string) | Other

  /** What `query_db` returns: the decoded string for a `'str'` row; for a
      `'json'` or `'list'` row the value that `json.loads` or `eval` makes of
      the decoded text, represented by that text. */
  datatype Answer = Text(s: string) | Parsed(tag: string, text: string)

  /** A result together with the tables after the call. */
  datatype Outcome<T> = Outcome(result: Result<T>, tables: Tables)

  /** The rows of `table`, or none when it does not exist yet. */
  function TableOf(tables: Tables, table: string): Table {
    if table in tables then tables[table] else map[]
  }

  /** `b` holds the same tables as `a` (besides, perhaps, a new `table`) and the
      same rows, except perhaps the row for `key` in `table`. */
  ghost predicate SameExcept(a: Tables, b: Tables, table: string, key: string) {
    a.Keys <= b.Keys <= a.Keys + {table} &&
    (forall t, k :: t in a && t in b && (t != table || k != key) ==>
       (k in a[t] <==> k in b[t]) && (k in a[t] ==> a[t][k] == b[t][k]))
  }

  // ---------------------------------------------------------------------------
  // write_db

  /** The row `write_db` builds for `value` at time `now`: a string is encoded
      as it is (tag `'str'`); a list or dict is encoded from its JSON text (tag
      `'json'`) or, when that fails, from its `str` text (tag `'list'`); any
      other value leaves the tag unbound, which fails when the INSERT statement
      is formatted. */
  function Stored(value: Value, now: int, cacheSeconds: int): (r: Result<Row>)
    ensures r.Ok? ==> r.value.expire == now + cacheSeconds
    ensures value.Str? ==> (r.Ok? <==> AllAscii(value.s))
    ensures value.Str? && r.Ok? ==> r.value.tag == "str" && Base64.DecodeDb(r.value.val) == Ok(value.s)
    ensures value.Structured? && r.Ok? ==>
              (r.value.tag == "json" && value.dumped.Some? && Base64.DecodeDb(r.value.val) == Ok(value.dumped.value)) ||
              (r.value.tag == "list" && Base64.DecodeDb(r.value.val) == Ok(value.shown))
    ensures value.Structured? ==> (r.Ok? <==> (value.dumped.Some? && AllAscii(value.dumped.value)) || AllAscii(value.shown))
    // the JSON text is used whenever it can be encoded, the `str` text only otherwise
    ensures value.Structured? && value.dumped.Some? && AllAscii(value.dumped.value) ==> r.Ok? && r.value.tag == "json"
    ensures value.Structured? && !(value.dumped.Some? && AllAscii(value.dumped.value)) && r.Ok? ==> r.value.tag == "list"
    ensures r.Err? ==> r.error == (if value.Other? then UnboundLocalError else UnicodeError)
  {
    match value
    case Str(s) =>
      if AllAscii(s) then Base64.RoundTrip(s); Ok(Row(Base64.EncodeDb(s).value, "str", now + cacheSeconds))
      else Err(UnicodeError)
    case Structured(dumped, shown) =>
      if dumped.Some? && AllAscii(dumped.value) then
        Base64.RoundTrip(dumped.value);
        Ok(Row(Base64.EncodeDb(dumped.value).value, "json", now + cacheSeconds))
      else if AllAscii(shown) then
        Base64.RoundTrip(shown);
        Ok(Row(Base64.EncodeDb(shown).value, "list", now + cacheSeconds))
      else Err(UnicodeError)
    case Other => Err(UnboundLocalError)
  }

  /** `write_db`: an encodable value is upserted (INSERT, or REPLACE when the
      key is already there) into `table`, created when missing, as the only row
      for `key`; nothing else changes. A value that cannot be encoded changes
      nothing; a value of another type creates the table and then fails. */
  function AfterWrite(tables: Tables, table: string, key: string, value: Value, now: int, cacheSeconds: int): (o: Outcome<()>)
    ensures o.result.Ok? <==> Stored(value, now, cacheSeconds).Ok?
    ensures o.result.Ok? ==> table in o.tables && key in o.tables[table] &&
                             o.tables[table][key] == Stored(value, now, cacheSeconds).value
    ensures o.result.Err? ==> o.result.error == Stored(value, now, cacheSeconds).error
    ensures o.result.Err? && !value.Other? ==> o.tables == tables
    ensures value.Other? ==> table in o.tables && TableOf(o.tables, table) == TableOf(tables, table)
  {
    match Stored(value, now, cacheSeconds)
    case Err(e) =>
      if value.Other? then Outcome(Err(e), tables[table := TableOf(tables, table)]) else Outcome(Err(e), tables)
    case Ok(row) => Outcome(Ok(()), tables[table := TableOf(tables, table)[key := row]])
  }

  // ---------------------------------------------------------------------------
  // query_db

  /** A row is served only strictly before its expiry time, and only when that
      time is closer than one caching period from now. */
  predicate Fresh(row: Row, now: int, cacheSeconds: int) {
    now < row.expire && row.expire < now + cacheSeconds
  }

  /** The value a fresh row gives back, by its tag. An unknown tag gives `None`. */
  function Served(row: Row): (r: Result<Option<Answer>>)
    ensures r.Ok? && r.value.Some? ==> row.tag in {"str", "json", "list"}
    ensures r.Ok? && r.value.Some? && r.value.value.Text? ==> Base64.DecodeDb(row.val) == Ok(r.value.value.s)
    // a `'str'` row gives its decoded text; a `'json'` or `'list'` row gives its
    // decoded text with its tag; text that does not decode raises
    ensures row.tag == "str" && Base64.DecodeDb(row.val).Ok? ==> r == Ok(Some(Text(Base64.DecodeDb(row.val).value)))
    ensures (row.tag == "json" || row.tag == "list") && Base64.DecodeDb(row.val).Ok? ==>
              r == Ok(Some(Parsed(row.tag, Base64.DecodeDb(row.val).value)))
    ensures row.tag in {"str", "json", "list"} && Base64.DecodeDb(row.val).Err? ==> r.Err?
    ensures row.tag !in {"str", "json", "list"} ==> r == Ok(None)
  {
    if row.tag == "str" then
      match Base64.DecodeDb(row.val)
      case Ok(s) => Ok(Some(Text(s)))
      case Err(e) => Err(e)
    else if row.tag == "list" || row.tag == "json" then
      match Base64.DecodeDb(row.val)
      case Ok(s) => Ok(Some(Parsed(row.tag, s)))
      case Err(e) => Err(e)
    else Ok(None)
  }

  /** `query_db`: a missing table or key gives `None` and changes nothing; a row
      that is not fresh is deleted and gives `None`; a fresh row is served. */
  function Lookup(tables: Tables, table: string, key: string, now: int, cacheSeconds: int): (o: Outcome<Option<Answer>>)
    ensures (table !in tables || key !in tables[table]) ==> o == Outcome(Ok(None), tables)
    ensures o.result.Ok? && o.result.value.Some? ==>
              table in tables && key in tables[table] && Fresh(tables[table][key], now, cacheSeconds) &&
              o.tables == tables
    ensures table in tables && key in tables[table] && !Fresh(tables[table][key], now, cacheSeconds) ==>
              o.result == Ok(None) && table in o.tables && key !in o.tables[table]
    ensures table in tables && key in tables[table] && Fresh(tables[table][key], now, cacheSeconds) ==>
              o == Outcome(Served(tables[table][key]), tables)
    ensures o.tables.Keys == tables.Keys
  {
    if table !in tables || key !in tables[table] then Outcome(Ok(None), tables)
    else
      var row := tables[table][key];
      if now >= row.expire || now + cacheSeconds <= row.expire then
        Outcome(Ok(None), tables[table := tables[table] - {key}])
      else Outcome(Served(row), tables)
  }

  // ---------------------------------------------------------------------------
  // clear_db

  /** A table name given to `clear_db` (Python treats `None` and `""` alike). */
  predicate Named(name: Option<string>) {
    name.Some? && name.value != ""
  }

  /** `clear_db`: without a name every table is emptied; with a name only that
      table is, and a name that is not a table fails, unless there are no
      tables at all (then the loop never runs). */
  function Cleared(tables: Tables, name: Option<string>): (o: Outcome<()>)
    ensures o.tables.Keys == tables.Keys
    ensures o.result.Err? <==> Named(name) && tables != map[] && name.value !in tables
    ensures o.result.Err? ==> o.result.error == OperationalError && o.tables == tables
    ensures !Named(name) ==> forall t :: t in o.tables ==> o.tables[t] == map[]
    ensures Named(name) ==> forall t :: t in o.tables && t != name.value ==> o.tables[t] == tables[t]
    ensures Named(name) && name.value in tables ==> o.tables[name.value] == map[]
  {
    if !Named(name) then Outcome(Ok(()), map t | t in tables :: map[])
    else if tables == map[] then Outcome(Ok(()), tables)
    else if name.value in tables then Outcome(Ok(()), tables[name.value := map[]])
    else Outcome(Err(OperationalError), tables)
  }

  // ---------------------------------------------------------------------------
  // Properties

  /** A string written at time `w` for `cs` seconds and read back at time `t`
      with a period of `cs'` seconds comes back unchanged exactly when
      `t < w + cs < t + cs'`; otherwise the read gives `None`. */
  lemma ReadBack(tables: Tables, table: string, key: string, s: string, w: int, cs: int, t: int, cs': int)
    requires AllAscii(s)
    ensures var o := AfterWrite(tables, table, key, Str(s), w, cs);
            Lookup(o.tables, table, key, t, cs').result ==
            (if t < w + cs < t + cs' then Ok(Some(Text(s))) else Ok(None))
  {
    var o := AfterWrite(tables, table, key, Str(s), w, cs);
    var row := o.tables[table][key];
    assert row.tag == "str" && Base64.DecodeDb(row.val) == Ok(s);
  }

  /** A list or dict written at time `w` for `cs` seconds and read back at time
      `t` with a period of `cs'` seconds gives back its JSON text (tag `'json'`)
      when that text is ASCII, its `str` text (tag `'list'`) otherwise, exactly
      when `t < w + cs < t + cs'`; otherwise the read gives `None`. */
  lemma ReadBackStructured(tables: Tables, table: string, key: string, dumped: Option<string>, shown: string,
                           w: int, cs: int, t: int, cs': int)
    requires Stored(Structured(dumped, shown), w, cs).Ok?
    ensures var o := AfterWrite(tables, table, key, Structured(dumped, shown), w, cs);
            Lookup(o.tables, table, key, t, cs').result ==
            (if !(t < w + cs < t + cs') then Ok(None)
             else if dumped.Some? && AllAscii(dumped.value) then Ok(Some(Parsed("json", dumped.value)))
             else Ok(Some(Parsed("list", shown))))
  {
    var o := AfterWrite(tables, table, key, Structured(dumped, shown), w, cs);
    var row := o.tables[table][key];
    if dumped.Some? && AllAscii(dumped.value) {
      assert row.tag == "json" && Base64.DecodeDb(row.val) == Ok(dumped.value);
    } else {
      assert row.tag == "list" && Base64.DecodeDb(row.val) == Ok(shown);
    }
  }

  /** Read back in the same second with the same period, a freshly written row
      is already out of its window: the read deletes it and gives `None`. */
  lemma SameSecondMisses(tables: Tables, table: string, key: string, value: Value, w: int, cs: int)
    requires Stored(value, w, cs).Ok?
    ensures var o := AfterWrite(tables, table, key, value, w, cs);
            var q := Lookup(o.tables, table, key, w, cs);
            q.result == Ok(None) && table in q.tables && key !in q.tables[table]
  {
  }

  /** `write_db` touches no table but `table` and no row but the one for `key`. */
  lemma WriteKeepsOthers(tables: Tables, table: string, key: string, value: Value, now: int, cs: int)
    ensures SameExcept(tables, AfterWrite(tables, table, key, value, now, cs).tables, table, key)
  {
  }

  /** `query_db` touches no table and no row but the one for `key`. */
  lemma LookupKeepsOthers(tables: Tables, table: string, key: string, now: int, cs: int)
    ensures SameExcept(Lookup(tables, table, key, now, cs).tables, tables, table, key)
  {
  }

  /** Writing the same value twice leaves what writing it once leaves. */
  lemma WriteTwice(tables: Tables, table: string, key: string, value: Value, now: int, cs: int)
    ensures var o := AfterWrite(tables, table, key, value, now, cs);
            AfterWrite(o.tables, table, key, value, now, cs) == o
  {
    var o := AfterWrite(tables, table, key, value, now, cs);
    if o.result.Ok? {
      assert TableOf(o.tables, table)[key := Stored(value, now, cs).value] == o.tables[table];
    }
  }

  /** After the whole cache is cleared, every lookup gives `None`. */
  lemma ClearedMisses(tables: Tables, table: string, key: string, now: int, cs: int)
    ensures var c := Cleared(tables, None).tables;
            Lookup(c, table, key, now, cs) == Outcome(Ok(None), c)
  {
  }

  // ---------------------------------------------------------------------------
  // The cache connection

  /** The branches of `write_db` that pick the encoded value and its tag. */
  method EncodeRow(value: Value, now: int, cacheSeconds: int) returns (r: Result<Row>)
    ensures r == Stored(value, now, cacheSeconds)
  {
    var expire := now + cacheSeconds;
    match value {
      case Str(s) =>
        var enc := Base64.EncodeDb(s);
        r := if enc.Ok? then Ok(Row(enc.value, "str", expire)) else Err(enc.error);
      case Structured(dumped, shown) =>
        var enc := if dumped.Some? then Base64.EncodeDb(dumped.value) else Err(TypeError);
        if enc.Ok? {
          r := Ok(Row(enc.value, "json", expire));
        } else {
          var enc' := Base64.EncodeDb(shown);
          r := if enc'.Ok? then Ok(Row(enc'.value, "list", expire)) else Err(enc'.error);
        }
      case Other =>
        r := Err(UnboundLocalError);
    }
  }

  class Store {
    var tables: Tables

    constructor()
      ensures tables == map[]
    {
      tables := map[];
    }

    /** `write_db(url=url, folder=table, cache_val=value)` at time `now`. */
    method Write(digest: Digest, url: string, cacheSeconds: int, now: int, table: string, value: Value)
      returns (r: Result<()>)
      modifies this
      ensures Outcome(r, tables) == AfterWrite(old(tables), table, digest(url), value, now, cacheSeconds)
    {
      var key := digest(url);
      var row := EncodeRow(value, now, cacheSeconds);
      ghost var after := AfterWrite(tables, table, key, value, now, cacheSeconds);
      if row.Err? && !value.Other? {
        assert after == Outcome(Err(row.error), tables);
        return Err(row.error);
      }
      // CREATE TABLE IF NOT EXISTS
      var rows := TableOf(tables, table);
      tables := tables[table := rows];
      if row.Err? {
        // formatting the INSERT reads the unbound `cache_type`
        assert after == Outcome(Err(row.error), tables);
        return Err(row.error);
      }
      // INSERT, or REPLACE after a UNIQUE constraint failure
      tables := tables[table := rows[key := row.value]];
      assert after == Outcome(Ok(()), tables);
      return Ok(());
    }

    /** `query_db(url=url, folder=table)` at time `now`. */
    method Query(digest: Digest, url: string, cacheSeconds: int, now: int, table: string)
      returns (r: Result<Option<Answer>>)
      modifies this
      ensures Outcome(r, tables) == Lookup(old(tables), table, digest(url), now, cacheSeconds)
    {
      var key := digest(url);
      if table !in tables {
        // 'no such table'
        return Ok(None);
      }
      if key !in tables[table] {
        return Ok(None);
      }
      var row := tables[table][key];
      var expire := now + cacheSeconds;
      if now >= row.expire || expire <= row.expire {
        tables := tables[table := tables[table] - {key}];
        return Ok(None);
      }
      r := Served(row);
    }

    /** `clear_db(table_name=name)`: the loop over the tables, deleting the rows
        of each (or of `name` alone, then stopping). */
    method Clear(name: Option<string>) returns (r: Result<()>)
      modifies this
      ensures Outcome(r, tables) == Cleared(old(tables), name)
    {
      var pending := tables.Keys;
      while pending != {}
        invariant pending <= tables.Keys && tables.Keys == old(tables).Keys
        invariant !Named(name) ==> forall t :: t in tables ==> tables[t] == (if t in pending then old(tables)[t] else map[])
        invariant Named(name) ==> pending == old(tables).Keys && tables == old(tables)
        decreases |pending|
      {
        var t :| t in pending;
        if Named(name) {
          t := name.value;
          if t !in tables {
            assert Cleared(old(tables), name) == Outcome(Err(OperationalError), tables);
            return Err(OperationalError);
          }
          tables := tables[t := map[]];
          assert Cleared(old(tables), name) == Outcome(Ok(()), tables);
          return Ok(());
        }
        tables := tables[t := map[]];
        pending := pending - {t};
      }
      if !Named(name) {
        assert tables == map t | t in old(tables) :: map[];
      }
      return Ok(());
    }
  }
}

/** The `ProjectUserRelation` model of app/models/project_user_relation.rb:
    the buffered CSV import (`import`), the find-or-create import
    (`import_x`), the adapter guard of the native-SQL paths (`export`,
    `import_by_sql`) and the `SELECT` list `export` builds.

    The CSV file is given already read: one map from header to field per data
    row, in file order (`CSV.foreach(file_path, headers: true)` and
    `row.to_hash`). The clock reading `the_time` and `Time.zone.parse` are
    parameters. Each `insert_all` call is one element of the sequence of
    batches `Import` returns. */
module ProjectUserRelations {
  import opened Wrappers
  import opened Text

  /** A point in time, as the database stores it. */
  type Instant = int

  /** `row.to_hash`: header to field; an empty unquoted field is nil. */
  type CsvRow = map<string, Option<string>>

  /** An attribute value handed to `insert_all`: a field as read, or a time. */
  datatype Value = Raw(text: Option<string>) | Time(at: Instant)

  /** The hash `import` inserts for one data row. */
  type Record = map<string, Value>

  const CreatedAt: string := "created_at"
  const UpdatedAt: string := "updated_at"

  /** The buffer is flushed once it holds more than this many rows. */
  const BatchLimit: nat := 1000

  /** `row_hash[key]`: nil when the header is absent. */
  function Lookup(row: CsvRow, key: string): Option<string> {
    if key in row then row[key] else None
  }

  // ---------------------------------------------------------------------
  // import

  /** The value a timestamp column gets: the parsed field when it is present
      (`presence`), otherwise the single clock reading `now`. */
  function Timestamp(v: Option<string>, now: Instant, parse: string -> Instant): (r: Value)
    ensures r.Time?
    ensures IsBlank(v) ==> r == Time(now)
    ensures !IsBlank(v) ==> r == Time(parse(v.value))
  {
    match Presence(v)
    case Some(s) => Time(parse(s))
    case None => Time(now)
  }

  /** One data row after lines 95-107: every column of the row passes through
      unchanged, and `created_at` and `updated_at` are set (added when the
      file has no such column). */
  function Normalize(row: CsvRow, now: Instant, parse: string -> Instant): (r: Record)
    ensures r.Keys == row.Keys + {CreatedAt, UpdatedAt}
    ensures forall k :: k in row && k != CreatedAt && k != UpdatedAt ==> r[k] == Raw(row[k])
    ensures r[CreatedAt] == Timestamp(Lookup(row, CreatedAt), now, parse)
    ensures r[UpdatedAt] == Timestamp(Lookup(row, UpdatedAt), now, parse)
  {
    var raw := map k | k in row :: Raw(row[k]);
    raw[CreatedAt := Timestamp(Lookup(row, CreatedAt), now, parse)]
       [UpdatedAt := Timestamp(Lookup(row, UpdatedAt), now, parse)]
  }

  /** Every data row of the file, normalized, in file order. */
  function NormalizeAll(rows: seq<CsvRow>, now: Instant, parse: string -> Instant): (r: seq<Record>)
    ensures |r| == |rows| && forall i :: 0 <= i < |rows| ==> r[i] == Normalize(rows[i], now, parse)
  {
    seq(|rows|, i requires 0 <= i < |rows| => Normalize(rows[i], now, parse))
  }

  /** The rows of all batches, batch after batch. */
  function Flatten<T>(bs: seq<seq<T>>): seq<T> {
    if bs == [] then [] else Flatten(bs[..|bs| - 1]) + bs[|bs| - 1]
  }

  lemma FlattenSnoc<T>(bs: seq<seq<T>>, b: seq<T>)
    ensures Flatten(bs + [b]) == Flatten(bs) + b
  {
    assert (bs + [b])[..|bs|] == bs;
  }

  /** Pushing onto the buffer extends what has been read by one row. */
  lemma PushStep<T>(f: seq<T>, buffer: seq<T>, read: seq<T>, x: T)
    requires f + buffer == read
    ensures f + (buffer + [x]) == read + [x]
  {
    ConcatAssoc(f, buffer, [x]);
  }

  /** Flushing moves the buffer into the batches. */
  lemma FlushStep<T>(bs: seq<seq<T>>, buffer: seq<T>, read: seq<T>)
    requires Flatten(bs) + buffer == read
    ensures Flatten(bs + [buffer]) + [] == read
  {
    FlattenSnoc(bs, buffer);
  }

  /** How the row count advances the batch count and the buffer size. */
  lemma CountStep(i: nat)
    ensures i % 1001 == 1000 ==> (i + 1) / 1001 == i / 1001 + 1 && (i + 1) % 1001 == 0
    ensures i % 1001 < 1000 ==> (i + 1) / 1001 == i / 1001 && (i + 1) % 1001 == i % 1001 + 1
  {
  }

  /** Reading one more row keeps the loop's invariant, whether or not the
      buffer is flushed. */
  lemma ImportStep<T>(batches: seq<seq<T>>, buffer: seq<T>, read: seq<T>, x: T, i: nat)
    requires Flatten(batches) + buffer == read
    requires forall j :: 0 <= j < |batches| ==> |batches[j]| == BatchLimit + 1
    requires |batches| == i / 1001 && |buffer| == i % 1001
    ensures |buffer + [x]| > BatchLimit ==>
              Flatten(batches + [buffer + [x]]) + [] == read + [x] &&
              (forall j :: 0 <= j < |batches| + 1 ==> |(batches + [buffer + [x]])[j]| == BatchLimit + 1) &&
              |batches + [buffer + [x]]| == (i + 1) / 1001 && 0 == (i + 1) % 1001
    ensures |buffer + [x]| <= BatchLimit ==>
              Flatten(batches) + (buffer + [x]) == read + [x] &&
              |batches| == (i + 1) / 1001 && |buffer + [x]| == (i + 1) % 1001
  {
    PushStep(Flatten(batches), buffer, read, x);
    CountStep(i);
    if |buffer + [x]| > BatchLimit {
      FlushStep(batches, buffer + [x], read + [x]);
    }
  }

  lemma TakeSnoc<T>(s: seq<T>, i: nat)
    requires i < |s|
    ensures s[..i + 1] == s[..i] + [s[i]]
  {
  }

  /** At the end of the file the loop's invariant gives the batches: the
      rest of the buffer, when there is any, is the last one. */
  lemma ImportFinish<T>(batches: seq<seq<T>>, buffer: seq<T>, all: seq<T>)
    requires Flatten(batches) + buffer == all
    requires forall j :: 0 <= j < |batches| ==> |batches[j]| == BatchLimit + 1
    requires |batches| == |all| / 1001 && |buffer| == |all| % 1001
    ensures var bs := if |buffer| > 0 then batches + [buffer] else batches;
            Flatten(bs) == all &&
            (forall j :: 0 <= j < |bs| - 1 ==> |bs[j]| == BatchLimit + 1) &&
            (bs != [] ==> 1 <= |bs[|bs| - 1]| <= BatchLimit + 1) &&
            (|all| % 1001 != 0 ==> bs != [] && |bs[|bs| - 1]| == |all| % 1001) &&
            |bs| == |all| / 1001 + (if |all| % 1001 == 0 then 0 else 1)
  {
    if |buffer| > 0 {
      FlushStep(batches, buffer, all);
    }
  }

  /** `import`: rows are normalized and pushed onto a buffer; the buffer is
      handed to `insert_all` and emptied as soon as it holds more than
      `BatchLimit` rows, and what is left at the end is inserted by one last
      call when there is any. The result is the sequence of `insert_all`
      calls: together they insert every data row once and in file order,
      every call but the last inserts 1001 rows, and the last at most that
      many and at least one. */
  method Import(rows: seq<CsvRow>, now: Instant, parse: string -> Instant) returns (batches: seq<seq<Record>>)
    ensures Flatten(batches) == NormalizeAll(rows, now, parse)
    ensures forall j :: 0 <= j < |batches| - 1 ==> |batches[j]| == BatchLimit + 1
    ensures batches != [] ==> 1 <= |batches[|batches| - 1]| <= BatchLimit + 1
    ensures |rows| % 1001 != 0 ==> batches != [] && |batches[|batches| - 1]| == |rows| % 1001
    ensures |batches| == |rows| / 1001 + (if |rows| % 1001 == 0 then 0 else 1)
  {
    ghost var all := NormalizeAll(rows, now, parse);
    batches := [];
    var buffer: seq<Record> := [];
    var i := 0;
    while i < |rows|
      invariant 0 <= i <= |rows|
      invariant Flatten(batches) + buffer == all[..i]
      invariant forall j :: 0 <= j < |batches| ==> |batches[j]| == BatchLimit + 1
      invariant |batches| == i / 1001 && |buffer| == i % 1001
    {
      var rowHash := Normalize(rows[i], now, parse);
      assert rowHash == all[i];
      TakeSnoc(all, i);
      ImportStep(batches, buffer, all[..i], rowHash, i);
      buffer := buffer + [rowHash];
      if |buffer| > BatchLimit {
        batches := batches + [buffer];
        buffer := [];
      }
      i := i + 1;
    }
    assert all[..i] == all;
    ImportFinish(batches, buffer, all);
    if |buffer| > 0 {
      batches := batches + [buffer];
    }
  }

  // ---------------------------------------------------------------------
  // import_x

  /** The attributes `find_or_create_by` is called with (`row.to_hash`), and
      a stored record as the same kind of map from column to value. */
  type Attrs = map<string, Option<string>>

  const Id: string := "id"
  const ProjectId: string := "project_id"
  const UserId: string := "user_id"

  /** The columns the migration declares `NOT NULL`: all five. */
  predicate NotNull(k: string) {
    k == Id || k == ProjectId || k == UserId || k == CreatedAt || k == UpdatedAt
  }

  /** The columns `create` fills in when the row leaves them empty: the
      primary key and the two timestamps. */
  predicate Auto(k: string) {
    k == Id || k == CreatedAt || k == UpdatedAt
  }

  /** The column holds a value. Active Record casts a blank field of a
      `bigint` or `datetime` column to nil. */
  predicate Present(a: Attrs, k: string) {
    !IsBlank(Lookup(a, k))
  }

  /** A record the table can hold: no `NOT NULL` column is empty. */
  predicate Stored(rec: Attrs) {
    Present(rec, Id) && Present(rec, ProjectId) && Present(rec, UserId) &&
    Present(rec, CreatedAt) && Present(rec, UpdatedAt)
  }

  predicate AllStored(table: seq<Attrs>) {
    forall i :: 0 <= i < |table| ==> Stored(table[i])
  }

  /** The row gives a value to every `NOT NULL` column it names. A row that
      does not is searched for with `<column> IS NULL`, which no stored
      record satisfies. */
  predicate Filled(attrs: Attrs) {
    forall k :: k in attrs && NotNull(k) ==> Present(attrs, k)
  }

  /** `find_by(attrs)`: the record has every given column with the given
      value. */
  predicate Matches(rec: Attrs, attrs: Attrs) {
    forall k :: k in attrs ==> k in rec && rec[k] == attrs[k]
  }

  predicate Found(table: seq<Attrs>, attrs: Attrs) {
    exists i :: 0 <= i < |table| && Matches(table[i], attrs)
  }

  /** Some stored record has this primary key. */
  predicate IdTaken(table: seq<Attrs>, id: string) {
    exists i :: 0 <= i < |table| && Lookup(table[i], Id) == Some(id)
  }

  /** What `create` takes from outside the row: the id the database assigns
      when the row gives none (`nextId` of the table so far), and the time
      Active Record writes into empty timestamps. */
  datatype Env = Env(nextId: seq<Attrs> -> string, now: string)

  /** An assigned id is a key no stored record has; neither it nor the time
      is blank. */
  ghost predicate EnvOk(env: Env) {
    !IsBlank(Some(env.now)) &&
    forall t :: !IsBlank(Some(env.nextId(t))) && !IdTaken(t, env.nextId(t))
  }

  /** `create` passes validation: `belongs_to` needs both references
      present, and `valid` says whether the project and the user they name
      exist. */
  predicate Saves(attrs: Attrs, valid: Attrs -> bool) {
    Present(attrs, ProjectId) && Present(attrs, UserId) && valid(attrs)
  }

  /** The primary key the insert uses: the row's id, or the assigned one. */
  function KeyOf(table: seq<Attrs>, attrs: Attrs, env: Env): (id: string) {
    if Present(attrs, Id) then Lookup(attrs, Id).value else env.nextId(table)
  }

  /** Sets column `k` to `v` when it is empty. */
  function Fill(a: Attrs, k: string, v: string): (r: Attrs)
    ensures r.Keys == a.Keys + {k}
    ensures Present(a, k) ==> r[k] == a[k]
    ensures !Present(a, k) ==> r[k] == Some(v)
    ensures forall j :: j in a && j != k ==> r[j] == a[j]
  {
    if Present(a, k) then a else a[k := Some(v)]
  }

  /** The record `create` inserts: the row, with an empty id set to the
      assigned key and empty timestamps set to the clock. */
  function Create(table: seq<Attrs>, attrs: Attrs, env: Env): (rec: Attrs)
    ensures rec.Keys == attrs.Keys + {Id, CreatedAt, UpdatedAt}
    ensures forall k :: k in attrs && (Present(attrs, k) || !Auto(k)) ==> rec[k] == attrs[k]
    ensures Lookup(rec, Id) == Some(KeyOf(table, attrs, env))
    ensures !Present(attrs, CreatedAt) ==> rec[CreatedAt] == Some(env.now)
    ensures !Present(attrs, UpdatedAt) ==> rec[UpdatedAt] == Some(env.now)
  {
    var withId := Fill(attrs, Id, env.nextId(table));
    var created := Fill(withId, CreatedAt, env.now);
    assert |Id| == 2 && |CreatedAt| == 10 && CreatedAt[0] != UpdatedAt[0];
    Fill(created, UpdatedAt, env.now)
  }

  /** How a run of `find_or_create_by` calls ends: after the last row, or at
      the row whose insert raised on a duplicate primary key. Either way
      `table` is what the table then holds. */
  datatype Outcome = Completed(table: seq<Attrs>) | Aborted(table: seq<Attrs>)

  lemma FoundSnoc(table: seq<Attrs>, rec: Attrs, attrs: Attrs)
    ensures Found(table + [rec], attrs) <==> Found(table, attrs) || Matches(rec, attrs)
  {
    var t := table + [rec];
    if Found(t, attrs) {
      var i :| 0 <= i < |t| && Matches(t[i], attrs);
      if i < |table| {
        assert t[i] == table[i];
      }
    }
    if Found(table, attrs) {
      var i :| 0 <= i < |table| && Matches(table[i], attrs);
      assert t[i] == table[i];
    }
    if Matches(rec, attrs) {
      assert t[|table|] == rec;
    }
  }

  /** The created record matches a row that leaves no `NOT NULL` column
      empty, and, when the filled-in values are not blank, only such a row. */
  lemma CreateMatches(table: seq<Attrs>, attrs: Attrs, env: Env)
    ensures Filled(attrs) ==> Matches(Create(table, attrs, env), attrs)
    ensures (EnvOk(env) && Present(attrs, ProjectId) && Present(attrs, UserId) &&
             Matches(Create(table, attrs, env), attrs)) ==> Filled(attrs)
  {
    var rec := Create(table, attrs, env);
    if Filled(attrs) {
      forall k | k in attrs ensures k in rec && rec[k] == attrs[k] {
        if Auto(k) {
          assert NotNull(k);
        }
      }
    }
    if EnvOk(env) && Present(attrs, ProjectId) && Present(attrs, UserId) && !Filled(attrs) {
      var k :| k in attrs && NotNull(k) && !Present(attrs, k);
      assert Auto(k);
      assert Present(rec, k);
    }
  }

  /** A created record of a valid row is one the table can hold. */
  lemma CreateStored(table: seq<Attrs>, attrs: Attrs, env: Env)
    requires EnvOk(env) && Present(attrs, ProjectId) && Present(attrs, UserId)
    ensures Stored(Create(table, attrs, env))
  {
    var rec := Create(table, attrs, env);
    assert !Auto(ProjectId) && !Auto(UserId);
    assert rec[ProjectId] == attrs[ProjectId] && rec[UserId] == attrs[UserId];
  }

  /** No stored record matches a row that leaves a `NOT NULL` column empty. */
  lemma UnfilledNeverFound(table: seq<Attrs>, attrs: Attrs)
    requires AllStored(table) && !Filled(attrs)
    ensures !Found(table, attrs)
  {
    var k :| k in attrs && NotNull(k) && !Present(attrs, k);
    forall i | 0 <= i < |table| ensures !Matches(table[i], attrs) {
      assert Stored(table[i]);
      assert Present(table[i], k);
    }
  }

  /** `find_or_create_by(attrs)`: the table is left as it is when a record
      matches, and when `create` fails validation. Otherwise the filled-in
      record is inserted, or the insert raises when its primary key is
      taken. */
  function FindOrCreate(table: seq<Attrs>, attrs: Attrs, valid: Attrs -> bool, env: Env): (r: Outcome)
    ensures r.Aborted? <==> !Found(table, attrs) && Saves(attrs, valid) && IdTaken(table, KeyOf(table, attrs, env))
    ensures r.table == table || (r.Completed? && r.table == table + [Create(table, attrs, env)])
    ensures r.Completed? && r.table != table <==> !Found(table, attrs) && Saves(attrs, valid) && !IdTaken(table, KeyOf(table, attrs, env))
  {
    if Found(table, attrs) || !Saves(attrs, valid) then Completed(table)
    else if IdTaken(table, KeyOf(table, attrs, env)) then Aborted(table)
    else Completed(table + [Create(table, attrs, env)])
  }

  /** After `find_or_create_by` completes, the row has a match exactly when
      it already had one, or it is valid and fills its `NOT NULL` columns.
      The "only if" half needs filled-in values that are not blank. */
  lemma FindOrCreateFound(table: seq<Attrs>, attrs: Attrs, valid: Attrs -> bool, env: Env)
    ensures var r := FindOrCreate(table, attrs, valid, env);
            r.Completed? && Wanted(table, attrs, valid) ==> Found(r.table, attrs)
    ensures var r := FindOrCreate(table, attrs, valid, env);
            EnvOk(env) && r.Completed? && Found(r.table, attrs) ==> Wanted(table, attrs, valid)
  {
    var r := FindOrCreate(table, attrs, valid, env);
    if r.table != table {
      FoundSnoc(table, Create(table, attrs, env), attrs);
      CreateMatches(table, attrs, env);
    }
  }

  /** The outcome of `find_or_create_by` on each row in turn; the first
      insert that raises ends the run. */
  function FindOrCreateAll(table: seq<Attrs>, rows: seq<Attrs>, valid: Attrs -> bool, env: Env): (r: Outcome) {
    if rows == [] then Completed(table)
    else
      var p := FindOrCreateAll(table, rows[..|rows| - 1], valid, env);
      if p.Aborted? then p else FindOrCreate(p.table, rows[|rows| - 1], valid, env)
  }

  /** Once a run has raised, the rows after it change nothing. */
  lemma {:induction false} AbortedStays(table: seq<Attrs>, rows: seq<Attrs>, valid: Attrs -> bool, env: Env, i: nat)
    requires i <= |rows| && FindOrCreateAll(table, rows[..i], valid, env).Aborted?
    ensures FindOrCreateAll(table, rows, valid, env) == FindOrCreateAll(table, rows[..i], valid, env)
    decreases |rows|
  {
    if i == |rows| {
      assert rows[..i] == rows;
    } else {
      var n := |rows| - 1;
      assert rows[..n][..i] == rows[..i];
      AbortedStays(table, rows[..n], valid, env, i);
      AbortedStep(table, rows, valid, env);
    }
  }

  lemma CompletedStep(table: seq<Attrs>, rows: seq<Attrs>, valid: Attrs -> bool, env: Env)
    requires rows != [] && FindOrCreateAll(table, rows[..|rows| - 1], valid, env).Completed?
    ensures FindOrCreateAll(table, rows, valid, env) ==
            FindOrCreate(FindOrCreateAll(table, rows[..|rows| - 1], valid, env).table, rows[|rows| - 1], valid, env)
  {
  }

  lemma AbortedStep(table: seq<Attrs>, rows: seq<Attrs>, valid: Attrs -> bool, env: Env)
    requires rows != [] && FindOrCreateAll(table, rows[..|rows| - 1], valid, env).Aborted?
    ensures FindOrCreateAll(table, rows, valid, env) == FindOrCreateAll(table, rows[..|rows| - 1], valid, env)
  {
  }

  /** `import_x`: one `find_or_create_by` per data row, in file order, until
      one raises. */
  method ImportX(table: seq<Attrs>, rows: seq<Attrs>, valid: Attrs -> bool, env: Env) returns (result: Outcome)
    ensures result == FindOrCreateAll(table, rows, valid, env)
  {
    result := Completed(table);
    var i := 0;
    while i < |rows| && result.Completed?
      invariant 0 <= i <= |rows|
      invariant result == FindOrCreateAll(table, rows[..i], valid, env)
    {
      assert rows[..i + 1][..i] == rows[..i];
      result := FindOrCreate(result.table, rows[i], valid, env);
      i := i + 1;
    }
    if result.Aborted? {
      AbortedStays(table, rows, valid, env, i);
    } else {
      assert rows[..i] == rows;
    }
  }

  /** A match stays a match as records are added behind it. */
  lemma FoundExtends(table: seq<Attrs>, more: seq<Attrs>, attrs: Attrs)
    requires Found(table, attrs)
    ensures Found(table + more, attrs)
  {
    var i :| 0 <= i < |table| && Matches(table[i], attrs);
    assert (table + more)[i] == table[i];
  }

  /** A taken key stays taken in any table that keeps the records. */
  lemma IdTakenPrefix(table: seq<Attrs>, bigger: seq<Attrs>, id: string)
    requires IdTaken(table, id) && |table| <= |bigger| && bigger[..|table|] == table
    ensures IdTaken(bigger, id)
  {
    var i :| 0 <= i < |table| && Lookup(table[i], Id) == Some(id);
    assert bigger[i] == table[i];
  }

  lemma FoundPrefix(table: seq<Attrs>, bigger: seq<Attrs>, attrs: Attrs)
    requires Found(table, attrs) && |table| <= |bigger| && bigger[..|table|] == table
    ensures Found(bigger, attrs)
  {
    FoundExtends(table, bigger[|table|..], attrs);
    assert table + bigger[|table|..] == bigger;
  }

  /** Nothing stored is changed or removed, and at most one record is added
      per row. */
  lemma {:induction false} ImportXKeeps(table: seq<Attrs>, rows: seq<Attrs>, valid: Attrs -> bool, env: Env)
    ensures var r := FindOrCreateAll(table, rows, valid, env);
            |table| <= |r.table| <= |table| + |rows| && r.table[..|table|] == table
  {
    if rows != [] {
      var init := rows[..|rows| - 1];
      ImportXKeeps(table, init, valid, env);
      var p := FindOrCreateAll(table, init, valid, env);
      if p.Completed? {
        var r := FindOrCreate(p.table, rows[|rows| - 1], valid, env);
        assert r.table[..|p.table|] == p.table;
        assert r.table[..|table|] == p.table[..|table|];
      }
    }
  }

  /** The filled-in records keep every `NOT NULL` column set. */
  lemma {:induction false} ImportXStored(table: seq<Attrs>, rows: seq<Attrs>, valid: Attrs -> bool, env: Env)
    requires EnvOk(env) && AllStored(table)
    ensures AllStored(FindOrCreateAll(table, rows, valid, env).table)
  {
    if rows != [] {
      var n := |rows| - 1;
      ImportXStored(table, rows[..n], valid, env);
      var p := FindOrCreateAll(table, rows[..n], valid, env);
      if p.Completed? {
        var r := FindOrCreate(p.table, rows[n], valid, env);
        if r.table != p.table {
          CreateStored(p.table, rows[n], env);
          var rec := Create(p.table, rows[n], env);
          forall i | 0 <= i < |r.table| ensures Stored(r.table[i]) {
            if i < |p.table| {
              assert r.table[i] == p.table[i];
            } else {
              assert r.table[i] == rec;
            }
          }
        }
      }
    }
  }

  /** The rows a completed run must leave with a match: those that already
      had one, and the valid ones that fill their `NOT NULL` columns. */
  predicate Wanted(table: seq<Attrs>, a: Attrs, valid: Attrs -> bool) {
    Found(table, a) || (Saves(a, valid) && Filled(a))
  }

  /** Every wanted row among `rows` has a match in `t`. */
  predicate Covered(table: seq<Attrs>, t: seq<Attrs>, rows: seq<Attrs>, valid: Attrs -> bool) {
    forall i :: 0 <= i < |rows| && Wanted(table, rows[i], valid) ==> Found(t, rows[i])
  }

  lemma CoversStep(table: seq<Attrs>, t: seq<Attrs>, r: seq<Attrs>, rows: seq<Attrs>, valid: Attrs -> bool)
    requires rows != [] && Covered(table, t, rows[..|rows| - 1], valid)
    requires |table| <= |t| <= |r| && t[..|table|] == table && r[..|t|] == t
    requires Wanted(t, rows[|rows| - 1], valid) ==> Found(r, rows[|rows| - 1])
    ensures Covered(table, r, rows, valid)
  {
    var n := |rows| - 1;
    forall i | 0 <= i < |rows| && Wanted(table, rows[i], valid) ensures Found(r, rows[i]) {
      if i < n {
        assert rows[..n][i] == rows[i];
        FoundPrefix(t, r, rows[i]);
      } else if Found(table, rows[i]) {
        FoundPrefix(table, t, rows[i]);
      }
    }
  }

  /** A completed run leaves a matching record for every row that already
      had one and for every valid row that fills its `NOT NULL` columns. */
  lemma {:induction false} ImportXCovers(table: seq<Attrs>, rows: seq<Attrs>, valid: Attrs -> bool, env: Env)
    ensures var r := FindOrCreateAll(table, rows, valid, env);
            r.Completed? ==> Covered(table, r.table, rows, valid)
  {
    if rows != [] {
      var n := |rows| - 1;
      var init := rows[..n];
      var p := FindOrCreateAll(table, init, valid, env);
      if p.Completed? {
        ImportXCovers(table, init, valid, env);
        ImportXKeeps(table, init, valid, env);
        var r := FindOrCreate(p.table, rows[n], valid, env);
        if r.Completed? {
          FindOrCreateFound(p.table, rows[n], valid, env);
          CoversStep(table, p.table, r.table, rows, valid);
        }
      }
    }
  }

  /** Rows that each have a match or fail validation leave the table as it
      is. */
  lemma {:induction false} ImportXAllFound(table: seq<Attrs>, rows: seq<Attrs>, valid: Attrs -> bool, env: Env)
    requires forall i :: 0 <= i < |rows| ==> Found(table, rows[i]) || !Saves(rows[i], valid)
    ensures FindOrCreateAll(table, rows, valid, env) == Completed(table)
  {
    if rows != [] {
      ImportXAllFound(table, rows[..|rows| - 1], valid, env);
    }
  }

  /** The number of rows that validate but leave a `NOT NULL` column empty:
      every run creates a new record for each of them. */
  function Repeated(rows: seq<Attrs>, valid: Attrs -> bool): (n: nat)
    ensures n <= |rows|
    ensures n == 0 <==> forall i :: 0 <= i < |rows| && Saves(rows[i], valid) ==> Filled(rows[i])
  {
    if rows == [] then 0
    else
      var m := |rows| - 1;
      var k := Repeated(rows[..m], valid);
      assert forall i :: 0 <= i < m ==> rows[..m][i] == rows[i];
      k + if Saves(rows[m], valid) && !Filled(rows[m]) then 1 else 0
  }

  /** Importing the same file again after a completed run adds nothing when
      every valid row fills its `NOT NULL` columns. */
  lemma ImportXIdempotent(table: seq<Attrs>, rows: seq<Attrs>, valid: Attrs -> bool, env: Env)
    ensures var once := FindOrCreateAll(table, rows, valid, env);
            once.Completed? && Repeated(rows, valid) == 0 ==>
              FindOrCreateAll(once.table, rows, valid, env) == Completed(once.table)
  {
    var once := FindOrCreateAll(table, rows, valid, env);
    if once.Completed? && Repeated(rows, valid) == 0 {
      ImportXCovers(table, rows, valid, env);
      ImportXAllFound(once.table, rows, valid, env);
    }
  }

  /** One more pass over rows whose filled valid rows all have a match:
      each valid row that leaves a `NOT NULL` column empty adds one record,
      and with no id of its own it cannot raise. */
  lemma {:induction false} RunOver(t: seq<Attrs>, rows: seq<Attrs>, valid: Attrs -> bool, env: Env)
    requires EnvOk(env) && AllStored(t)
    requires forall i :: 0 <= i < |rows| && Saves(rows[i], valid) && Filled(rows[i]) ==> Found(t, rows[i])
    ensures var r := FindOrCreateAll(t, rows, valid, env);
            (r.Completed? ==> |r.table| == |t| + Repeated(rows, valid)) &&
            ((forall i :: 0 <= i < |rows| && Saves(rows[i], valid) && !Filled(rows[i]) ==> !Present(rows[i], Id)) ==>
               r.Completed?)
  {
    if rows != [] {
      var n := |rows| - 1;
      var init := rows[..n];
      assert forall i :: 0 <= i < n ==> init[i] == rows[i];
      RunOver(t, init, valid, env);
      var p := FindOrCreateAll(t, init, valid, env);
      if p.Completed? {
        var a := rows[n];
        ImportXKeeps(t, init, valid, env);
        ImportXStored(t, init, valid, env);
        if Saves(a, valid) && Filled(a) {
          FoundPrefix(t, p.table, a);
        }
        RunOverStep(p.table, a, valid, env);
        CompletedStep(t, rows, valid, env);
      } else {
        AbortedStep(t, rows, valid, env);
      }
    }
  }

  lemma RunOverStep(t: seq<Attrs>, a: Attrs, valid: Attrs -> bool, env: Env)
    requires EnvOk(env) && AllStored(t)
    requires Saves(a, valid) && Filled(a) ==> Found(t, a)
    ensures var r := FindOrCreate(t, a, valid, env);
            (r.Completed? ==> |r.table| == |t| + if Saves(a, valid) && !Filled(a) then 1 else 0) &&
            ((Saves(a, valid) && !Filled(a) ==> !Present(a, Id)) ==> r.Completed?)
  {
    if !Filled(a) {
      UnfilledNeverFound(t, a);
    }
  }

  /** In such a pass, a valid row that leaves a `NOT NULL` column empty but
      gives an id already stored makes the run raise. */
  lemma {:induction false} RunOverRaises(t: seq<Attrs>, rows: seq<Attrs>, valid: Attrs -> bool, env: Env, i: nat)
    requires EnvOk(env) && AllStored(t)
    requires i < |rows| && Saves(rows[i], valid) && !Filled(rows[i])
    requires Present(rows[i], Id) && IdTaken(t, Lookup(rows[i], Id).value)
    ensures FindOrCreateAll(t, rows, valid, env).Aborted?
  {
    var n := |rows| - 1;
    var init := rows[..n];
    if i < n {
      assert init[i] == rows[i];
      RunOverRaises(t, init, valid, env, i);
      AbortedStep(t, rows, valid, env);
    } else {
      RaisesAtLast(t, rows, valid, env);
    }
  }

  lemma RaisesAtLast(t: seq<Attrs>, rows: seq<Attrs>, valid: Attrs -> bool, env: Env)
    requires EnvOk(env) && AllStored(t) && rows != []
    requires var a := rows[|rows| - 1];
             Saves(a, valid) && !Filled(a) && Present(a, Id) && IdTaken(t, Lookup(a, Id).value)
    ensures FindOrCreateAll(t, rows, valid, env).Aborted?
  {
    var n := |rows| - 1;
    var init := rows[..n];
    var p := FindOrCreateAll(t, init, valid, env);
    if p.Aborted? {
      AbortedStep(t, rows, valid, env);
    } else {
      ImportXKeeps(t, init, valid, env);
      ImportXStored(t, init, valid, env);
      IdTakenPrefix(t, p.table, Lookup(rows[n], Id).value);
      RaisesLast(p.table, rows[n], valid, env);
      CompletedStep(t, rows, valid, env);
    }
  }

  lemma RaisesLast(t: seq<Attrs>, a: Attrs, valid: Attrs -> bool, env: Env)
    requires AllStored(t) && Saves(a, valid) && !Filled(a)
    requires Present(a, Id) && IdTaken(t, Lookup(a, Id).value)
    ensures FindOrCreate(t, a, valid, env).Aborted?
  {
    UnfilledNeverFound(t, a);
  }

  /** After a completed run, the id a valid row gave is stored, even when the
      row left another `NOT NULL` column empty. */
  lemma {:induction false} CreatedIdKept(table: seq<Attrs>, rows: seq<Attrs>, valid: Attrs -> bool, env: Env, i: nat)
    requires EnvOk(env) && AllStored(table)
    requires i < |rows| && Saves(rows[i], valid) && !Filled(rows[i]) && Present(rows[i], Id)
    ensures var r := FindOrCreateAll(table, rows, valid, env);
            r.Completed? ==> IdTaken(r.table, Lookup(rows[i], Id).value)
  {
    var n := |rows| - 1;
    var init := rows[..n];
    var p := FindOrCreateAll(table, init, valid, env);
    var r := FindOrCreateAll(table, rows, valid, env);
    if p.Completed? && r.Completed? {
      CompletedStep(table, rows, valid, env);
      var id := Lookup(rows[i], Id).value;
      if i < n {
        assert init[i] == rows[i];
        CreatedIdKept(table, init, valid, env, i);
        IdTakenPrefix(p.table, r.table, id);
      } else {
        ImportXStored(table, init, valid, env);
        CreatedLast(p.table, rows[n], valid, env);
      }
    }
  }

  lemma CreatedLast(t: seq<Attrs>, a: Attrs, valid: Attrs -> bool, env: Env)
    requires AllStored(t) && Saves(a, valid) && !Filled(a) && Present(a, Id)
    ensures var r := FindOrCreate(t, a, valid, env);
            r.Completed? ==> IdTaken(r.table, Lookup(a, Id).value)
  {
    UnfilledNeverFound(t, a);
    var r := FindOrCreate(t, a, valid, env);
    if r.Completed? {
      var rec := Create(t, a, env);
      assert r.table[|t|] == rec;
    }
  }

  /** Importing the same file a second time after a completed run: the first
      run's records are kept, and one record is added for each valid row
      that leaves a `NOT NULL` column empty, since such a row matches
      nothing. A second run raises when such a row gives its own id, and
      otherwise completes. */
  lemma ImportXRerun(table: seq<Attrs>, rows: seq<Attrs>, valid: Attrs -> bool, env: Env)
    requires EnvOk(env) && AllStored(table)
    ensures var once := FindOrCreateAll(table, rows, valid, env);
            var twice := FindOrCreateAll(once.table, rows, valid, env);
            once.Completed? ==>
              |once.table| <= |twice.table| && twice.table[..|once.table|] == once.table &&
              (twice.Completed? ==> |twice.table| == |once.table| + Repeated(rows, valid)) &&
              ((exists i :: 0 <= i < |rows| && Saves(rows[i], valid) && !Filled(rows[i]) && Present(rows[i], Id)) <==>
                 twice.Aborted?)
  {
    var once := FindOrCreateAll(table, rows, valid, env);
    if once.Completed? {
      ImportXCovers(table, rows, valid, env);
      ImportXStored(table, rows, valid, env);
      ImportXKeeps(once.table, rows, valid, env);
      RunOver(once.table, rows, valid, env);
      if exists i :: 0 <= i < |rows| && Saves(rows[i], valid) && !Filled(rows[i]) && Present(rows[i], Id) {
        var i :| 0 <= i < |rows| && Saves(rows[i], valid) && !Filled(rows[i]) && Present(rows[i], Id);
        CreatedIdKept(table, rows, valid, env, i);
        RunOverRaises(once.table, rows, valid, env, i);
      }
    }
  }

  /** The file `project_id,user_id,created_at,updated_at` with the one row
      `1,1,,` imported twice into an empty table leaves two records. */
  lemma ImportXRerunExample(valid: Attrs -> bool, env: Env)
    requires EnvOk(env)
    requires valid(map[ProjectId := Some("1"), UserId := Some("1"), CreatedAt := None, UpdatedAt := None])
    ensures var rows := [map[ProjectId := Some("1"), UserId := Some("1"), CreatedAt := None, UpdatedAt := None]];
            var once := FindOrCreateAll([], rows, valid, env);
            var twice := FindOrCreateAll(once.table, rows, valid, env);
            once.Completed? && |once.table| == 1 && twice.Completed? && |twice.table| == 2
  {
    var a := map[ProjectId := Some("1"), UserId := Some("1"), CreatedAt := None, UpdatedAt := None];
    var rows := [a];
    assert !Filled(a) by {
      assert CreatedAt in a && NotNull(CreatedAt) && !Present(a, CreatedAt);
    }
    assert !Present(a, Id);
    assert Lookup(a, ProjectId) == Lookup(a, UserId) == Some("1");
    assert IsSpace("1"[0]) == false;
    assert Saves(a, valid);
    assert rows[..0] == [];
    ImportXRerun([], rows, valid, env);
  }

  /** Whether `x` names the same project and user as `a`. */
  predicate SamePair(x: Attrs, a: Attrs) {
    Lookup(x, ProjectId) == Lookup(a, ProjectId) && Lookup(x, UserId) == Lookup(a, UserId)
  }

  /** A row that fails validation and matches nothing stays without a record
      when no valid row names the same project and user. */
  lemma ImportXSkipsInvalid(table: seq<Attrs>, rows: seq<Attrs>, valid: Attrs -> bool, env: Env, i: nat)
    requires i < |rows| && !Saves(rows[i], valid) && !Found(table, rows[i])
    requires ProjectId in rows[i] && UserId in rows[i]
    requires forall j :: 0 <= j < |rows| && Saves(rows[j], valid) ==> !SamePair(rows[j], rows[i])
    ensures !Found(FindOrCreateAll(table, rows, valid, env).table, rows[i])
  {
    SkipsInvalidFrom(table, rows, valid, env, rows[i]);
  }

  lemma {:induction false} SkipsInvalidFrom(table: seq<Attrs>, rows: seq<Attrs>, valid: Attrs -> bool, env: Env, a: Attrs)
    requires !Found(table, a) && ProjectId in a && UserId in a
    requires forall j :: 0 <= j < |rows| && Saves(rows[j], valid) ==> !SamePair(rows[j], a)
    ensures !Found(FindOrCreateAll(table, rows, valid, env).table, a)
  {
    if rows != [] {
      var n := |rows| - 1;
      assert forall j :: 0 <= j < n ==> rows[..n][j] == rows[j];
      SkipsInvalidFrom(table, rows[..n], valid, env, a);
      var p := FindOrCreateAll(table, rows[..n], valid, env);
      if p.Completed? {
        var r := FindOrCreate(p.table, rows[n], valid, env);
        if r.table != p.table {
          var rec := Create(p.table, rows[n], env);
          assert !Auto(ProjectId) && !Auto(UserId);
          assert !Matches(rec, a);
          FoundSnoc(p.table, rec, a);
        }
      }
    }
  }

  // ---------------------------------------------------------------------
  // The adapter guard of export and import_by_sql

  /** The only adapter the native-SQL paths support. */
  const Mysql2: string := "mysql2"

  /** The message of the `RuntimeError` both paths raise, spelled as in the
      source. */
  function AdapterError(adapter: string): string {
    "No suport the db dapter: " + adapter
  }

  /** `export`: fails with the adapter error unless the adapter is `mysql2`,
      before building any SQL; otherwise gives the `SELECT` list of the
      columns. The statement around it and its execution are not modelled. */
  function Export(adapter: string, columns: seq<Column>): (r: Result<string, string>)
    ensures r.Failure? <==> adapter != Mysql2
    ensures r.Failure? ==> r.error == AdapterError(adapter)
    ensures r.Success? ==> r.value == SelectSql(columns)
  {
    if adapter != Mysql2 then Failure(AdapterError(adapter)) else Success(SelectSql(columns))
  }

  /** `import_by_sql`: fails with the adapter error unless the adapter is
      `mysql2`; otherwise goes on to the `LOAD DATA` statement. */
  function ImportBySql(adapter: string): (r: Result<(), string>)
    ensures r.Failure? <==> adapter != Mysql2
    ensures r.Failure? ==> r.error == AdapterError(adapter)
  {
    if adapter != Mysql2 then Failure(AdapterError(adapter)) else Success(())
  }

  // ---------------------------------------------------------------------
  // The SELECT list of export

  /** `UTC_OFFSET`: the zone datetime columns are converted to. */
  const UtcOffset: string := "+09:00"

  /** A column's `type`, as far as `export` looks at it: `:datetime` or any
      other (the `bigint` columns report `:integer`). */
  datatype ColumnType = Other | Datetime

  /** `[x.name.to_s, x.type]` of one column. */
  datatype Column = Column(name: string, kind: ColumnType)

  /** The columns of `project_user_relations`, in table order. */
  const RelationColumns: seq<Column> := [
    Column("id", Other), Column("project_id", Other), Column("user_id", Other),
    Column("created_at", Datetime), Column("updated_at", Datetime)]

  /** `project_user_relations.<name>`. */
  function Qualified(name: string): string {
    "project_user_relations." + name
  }

  /** The value a non-NULL column is exported as: a datetime converted from
      UTC to `UtcOffset`, anything else as it is. */
  function ExportedValue(c: Column): string {
    match c.kind
    case Datetime => "convert_tz(    " + Qualified(c.name) + ", '+00:00','" + UtcOffset + "')"
    case Other => Qualified(c.name)
  }

  /** The `CASE` expression of one column: NULL becomes `''`, the alias is
      the column's name. */
  function CaseExpr(c: Column): (e: string) {
    "CASE  WHEN " + Qualified(c.name) + " IS NULL THEN ''  ELSE " + ExportedValue(c) + " END AS " + c.name
  }

  /** One `CASE` expression per column, in column order. */
  function SelectList(columns: seq<Column>): (r: seq<string>)
    ensures |r| == |columns| && forall i :: 0 <= i < |columns| ==> r[i] == CaseExpr(columns[i])
  {
    seq(|columns|, i requires 0 <= i < |columns| => CaseExpr(columns[i]))
  }

  /** `Array#join(sep)`. */
  function Join(xs: seq<string>, sep: string): string {
    if xs == [] then "" else if |xs| == 1 then xs[0] else xs[0] + sep + Join(xs[1..], sep)
  }

  /** `select_sql`. */
  function SelectSql(columns: seq<Column>): (sql: string) {
    Join(SelectList(columns), ",")
  }

  // ---------------------------------------------------------------------
  // Reading the SELECT list back: the comma inside `convert_tz(...)` is
  // nested in parentheses, so splitting at the commas outside parentheses
  // gives back one `CASE` expression per column.

  /** How a character changes the parenthesis depth. */
  function Delta(ch: char): int {
    if ch == '(' then 1 else if ch == ')' then -1 else 0
  }

  /** The depth after scanning `s` from depth `d`. */
  function DepthAfter(s: string, d: int): int {
    if s == [] then d else DepthAfter(s[1..], d + Delta(s[0]))
  }

  /** An index found in `b` seen as an index into `a + b`. */
  function Shift(r: Option<int>, k: int): Option<int> {
    match r
    case Some(i) => Some(k + i)
    case None => None
  }

  /** The index of the first comma of `s` met at depth 0, scanning from
      depth `d`. */
  function TopComma(s: string, d: int): (r: Option<int>)
    ensures r.Some? ==> 0 <= r.value < |s|
  {
    if s == [] then None
    else if s[0] == ',' && d == 0 then Some(0)
    else Shift(TopComma(s[1..], d + Delta(s[0])), 1)
  }

  /** The pieces of `s` between its commas at depth 0. */
  function SplitTop(s: string): (r: seq<string>)
    ensures |r| >= 1
    decreases |s|
  {
    match TopComma(s, 0)
    case None => [s]
    case Some(i) => [s[..i]] + SplitTop(s[i + 1..])
  }

  /** Scanning `s` from depth `d` meets no comma at depth 0 and ends at `e`. */
  predicate Passes(s: string, d: int, e: int) {
    TopComma(s, d) == None && DepthAfter(s, d) == e
  }

  /** Depth is counted the same over a concatenation. */
  lemma {:induction false} DepthAppend(a: string, b: string, d: int)
    ensures DepthAfter(a + b, d) == DepthAfter(b, DepthAfter(a, d))
  {
    if a == [] {
      assert a + b == b;
    } else {
      var ab := a + b;
      assert ab[0] == a[0] && ab[1..] == a[1..] + b;
      DepthAppend(a[1..], b, d + Delta(a[0]));
    }
  }

  /** After a stretch without a top-level comma, the scan goes on where the
      stretch left it. */
  lemma {:induction false} TopCommaAppend(a: string, b: string, d: int)
    requires TopComma(a, d) == None
    ensures TopComma(a + b, d) == Shift(TopComma(b, DepthAfter(a, d)), |a|)
  {
    if a == [] {
      assert a + b == b;
    } else {
      var d' := d + Delta(a[0]);
      var ab := a + b;
      assert ab[0] == a[0] && ab[1..] == a[1..] + b;
      TopCommaAppend(a[1..], b, d');
      var rest := TopComma(b, DepthAfter(a[1..], d'));
      assert DepthAfter(a, d) == DepthAfter(a[1..], d');
      assert TopComma(ab, d) == Shift(Shift(rest, |a| - 1), 1);
    }
  }

  lemma PassesAppend(a: string, b: string, d: int, e: int, f: int)
    requires Passes(a, d, e) && Passes(b, e, f)
    ensures Passes(a + b, d, f)
  {
    TopCommaAppend(a, b, d);
    DepthAppend(a, b, d);
  }

  /** No comma and no parenthesis. */
  predicate Plain(s: string) {
    forall i :: 0 <= i < |s| ==> s[i] != ',' && s[i] != '(' && s[i] != ')'
  }

  /** No parenthesis; commas allowed. */
  predicate NoParens(s: string) {
    forall i :: 0 <= i < |s| ==> s[i] != '(' && s[i] != ')'
  }

  lemma {:induction false} PlainPasses(s: string, d: int)
    requires Plain(s)
    ensures Passes(s, d, d)
  {
    if s != [] {
      PlainPasses(s[1..], d);
    }
  }

  /** Inside parentheses commas do not split. */
  lemma {:induction false} NestedPasses(s: string, d: int)
    requires NoParens(s) && d > 0
    ensures Passes(s, d, d)
  {
    if s != [] {
      NestedPasses(s[1..], d);
    }
  }

  lemma OpenPasses(d: int)
    ensures Passes("(", d, d + 1)
  {
    assert "("[1..] == [];
  }

  lemma ClosePasses(d: int)
    requires d > 0
    ensures Passes(")", d, d - 1)
  {
    assert ")"[1..] == [];
  }

  /** The qualified name of a plain column name is plain. */
  lemma QualifiedPlain(name: string)
    requires Plain(name)
    ensures Plain(Qualified(name))
  {
    var q := "project_user_relations.";
    assert Plain(q);
    forall i | 0 <= i < |q + name| ensures (q + name)[i] != ',' && (q + name)[i] != '(' && (q + name)[i] != ')' {
      if i >= |q| {
        assert (q + name)[i] == name[i - |q|];
      }
    }
  }

  /** The literal pieces of the conversion. */
  lemma ConvertPieces()
    ensures Plain("convert_tz") && Plain("    ")
    ensures NoParens(", '+00:00','" + UtcOffset + "'")
  {
  }

  /** The conversion of a plain column reference leaves the depth where it
      found it. */
  lemma ConvertPasses(q: string)
    requires Plain(q)
    ensures Passes("convert_tz" + "(" + ("    " + q + (", '+00:00','" + UtcOffset + "'")) + ")", 0, 0)
  {
    var tail := ", '+00:00','" + UtcOffset + "'";
    ConvertPieces();
    PlainPasses("convert_tz", 0);
    OpenPasses(0);
    PassesAppend("convert_tz", "(", 0, 0, 1);
    NestedPasses("    ", 1);
    NestedPasses(q, 1);
    NestedPasses(tail, 1);
    PassesAppend("    ", q, 1, 1, 1);
    PassesAppend("    " + q, tail, 1, 1, 1);
    PassesAppend("convert_tz" + "(", "    " + q + tail, 0, 1, 1);
    ClosePasses(1);
    PassesAppend("convert_tz" + "(" + ("    " + q + tail), ")", 0, 1, 0);
  }

  /** The conversion, regrouped around its parentheses. */
  lemma ConvertRegroup(q: string)
    ensures "convert_tz(    " + q + ", '+00:00','" + UtcOffset + "')" ==
            "convert_tz" + "(" + ("    " + q + (", '+00:00','" + UtcOffset + "'")) + ")"
  {
    var tail := ", '+00:00','" + UtcOffset + "'";
    assert "convert_tz(    " == "convert_tz" + "(" + "    ";
    assert ", '+00:00','" + UtcOffset + "')" == tail + ")";
  }

  /** The exported value leaves the depth where it found it. */
  lemma ExportedValuePasses(c: Column)
    requires Plain(c.name)
    ensures Passes(ExportedValue(c), 0, 0)
  {
    QualifiedPlain(c.name);
    match c.kind
    case Other =>
      PlainPasses(Qualified(c.name), 0);
    case Datetime =>
      ConvertRegroup(Qualified(c.name));
      ConvertPasses(Qualified(c.name));
  }

  /** A column's `CASE` expression has no comma outside parentheses and
      balanced parentheses. */
  lemma CaseExprPasses(c: Column)
    requires Plain(c.name)
    ensures Passes(CaseExpr(c), 0, 0)
  {
    var q := Qualified(c.name);
    var v := ExportedValue(c);
    QualifiedPlain(c.name);
    ExportedValuePasses(c);
    assert Plain("CASE  WHEN ");
    assert Plain(" IS NULL THEN ''  ELSE ");
    assert Plain(" END AS ");
    PlainPasses("CASE  WHEN ", 0);
    PlainPasses(q, 0);
    PlainPasses(" IS NULL THEN ''  ELSE ", 0);
    PlainPasses(" END AS ", 0);
    PlainPasses(c.name, 0);
    PassesAppend("CASE  WHEN ", q, 0, 0, 0);
    PassesAppend("CASE  WHEN " + q, " IS NULL THEN ''  ELSE ", 0, 0, 0);
    PassesAppend("CASE  WHEN " + q + " IS NULL THEN ''  ELSE ", v, 0, 0, 0);
    PassesAppend("CASE  WHEN " + q + " IS NULL THEN ''  ELSE " + v, " END AS ", 0, 0, 0);
    PassesAppend("CASE  WHEN " + q + " IS NULL THEN ''  ELSE " + v + " END AS ", c.name, 0, 0, 0);
  }

  lemma PlainConcat(a: string, b: string)
    requires Plain(a) && Plain(b)
    ensures Plain(a + b)
  {
    forall i | 0 <= i < |a + b| ensures (a + b)[i] != ',' && (a + b)[i] != '(' && (a + b)[i] != ')' {
      if i >= |a| {
        assert (a + b)[i] == b[i - |a|];
      }
    }
  }

  /** Only a datetime column is converted: its expression is the only kind
      with a parenthesis (the `convert_tz` call). */
  lemma ConvertedIff(c: Column)
    requires Plain(c.name)
    ensures c.kind == Datetime <==> '(' in CaseExpr(c)
  {
    var q := Qualified(c.name);
    QualifiedPlain(c.name);
    match c.kind
    case Other =>
      assert Plain("CASE  WHEN ") && Plain(" IS NULL THEN ''  ELSE ") && Plain(" END AS ");
      PlainConcat("CASE  WHEN ", q);
      PlainConcat("CASE  WHEN " + q, " IS NULL THEN ''  ELSE ");
      PlainConcat("CASE  WHEN " + q + " IS NULL THEN ''  ELSE ", q);
      PlainConcat("CASE  WHEN " + q + " IS NULL THEN ''  ELSE " + q, " END AS ");
      PlainConcat("CASE  WHEN " + q + " IS NULL THEN ''  ELSE " + q + " END AS ", c.name);
    case Datetime =>
      var v := ExportedValue(c);
      assert v[10] == '(';
      var pre := "CASE  WHEN " + q + " IS NULL THEN ''  ELSE ";
      assert CaseExpr(c) == pre + v + (" END AS " + c.name);
      assert CaseExpr(c)[|pre| + 10] == '(';
  }

  /** Splitting the first piece off a joined list. */
  lemma SplitFirst(x: string, rest: string)
    requires Passes(x, 0, 0)
    ensures SplitTop(x + "," + rest) == [x] + SplitTop(rest)
  {
    var s := x + "," + rest;
    assert s == x + ("," + rest);
    TopCommaAppend(x, "," + rest, 0);
    assert TopComma(s, 0) == Some(|x|);
    assert s[..|x|] == x;
    assert s[|x| + 1..] == rest;
  }

  /** Splitting a comma-joined list of pieces without top-level commas gives
      the pieces back. */
  lemma {:induction false} SplitJoin(xs: seq<string>)
    requires xs != []
    requires forall i :: 0 <= i < |xs| ==> Passes(xs[i], 0, 0)
    ensures SplitTop(Join(xs, ",")) == xs
  {
    if |xs| == 1 {
      assert TopComma(xs[0], 0) == None;
    } else {
      SplitJoin(xs[1..]);
      SplitFirst(xs[0], Join(xs[1..], ","));
      assert xs == [xs[0]] + xs[1..];
    }
  }

  /** `select_sql` read back: one `CASE` expression per column, in column
      order, provided the column names are plain identifiers. */
  lemma SelectSqlSplits(columns: seq<Column>)
    requires columns != []
    requires forall i :: 0 <= i < |columns| ==> Plain(columns[i].name)
    ensures SplitTop(SelectSql(columns)) == SelectList(columns)
  {
    var xs := SelectList(columns);
    forall i | 0 <= i < |xs| ensures Passes(xs[i], 0, 0) {
      CaseExprPasses(columns[i]);
    }
    SplitJoin(xs);
  }

  /** The table's own columns are plain identifiers. */
  lemma RelationColumnsPlain()
    ensures forall i :: 0 <= i < |RelationColumns| ==> Plain(RelationColumns[i].name)
  {
    assert Plain("id") && Plain("project_id") && Plain("user_id");
    assert Plain("created_at") && Plain("updated_at");
  }

  /** `select_sql` of the table: five expressions, one per column. */
  lemma RelationSelectSql()
    ensures var parts := SplitTop(SelectSql(RelationColumns));
            |parts| == 5 && forall i :: 0 <= i < 5 ==> parts[i] == CaseExpr(RelationColumns[i])
  {
    RelationColumnsPlain();
    SelectSqlSplits(RelationColumns);
  }
}

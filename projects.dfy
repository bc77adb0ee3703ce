/** The `Project` model of app/models/project.rb: the BOM-prefixed,
    force-quoted CSV export of the projects table (`to_csv`, `to_csv_x`), the
    export file name (`csv_name`) and the validation of `name`.

    The table is a sequence of records in storage order; the database's
    `ORDER BY id` is the function `OrderById`. The file written is returned as
    a string, and the clock and `Rails.root` are parameters. */
module Projects {
  import opened Wrappers
  import opened Text
  import Csv

  /** `BOM`: the byte-order mark written before the header. */
  const Bom: char := '\U{FEFF}'

  /** `CSV_HEADERS`: the exported columns, in order. */
  const CsvHeaders: seq<string> := ["id", "name", "description"]

  /** A point in time, as the database stores it. */
  type Instant = int

  /** A calendar date (`due_on`), as a day number. */
  type Date = int

  /** A row of the `projects` table. */
  datatype Project = Project(
    id: int,
    name: Option<string>,
    description: Option<string>,
    dueOn: Option<Date>,
    createdAt: Instant,
    updatedAt: Instant)

  /** The record `select(*CSV_HEADERS)` loads: only the exported columns. */
  datatype Columns = Columns(id: int, name: Option<string>, description: Option<string>)

  function Select(p: Project): (c: Columns) {
    Columns(p.id, p.name, p.description)
  }

  /** The fields of `[row.id, row.name, row.description]` as the CSV writer
      renders them: the id in decimal, nil as the empty string. */
  function Fields(c: Columns): (r: seq<string>)
    ensures |r| == 3
  {
    [IntToDec(c.id), OrEmpty(c.name), OrEmpty(c.description)]
  }

  // ---------------------------------------------------------------------
  // order(:id)

  predicate SortedById(s: seq<Project>) {
    forall i, j :: 0 <= i < j < |s| ==> s[i].id <= s[j].id
  }

  predicate StrictlySortedById(s: seq<Project>) {
    forall i, j :: 0 <= i < j < |s| ==> s[i].id < s[j].id
  }

  /** Primary keys: no two rows share an id. */
  predicate DistinctIds(s: seq<Project>) {
    forall i, j :: 0 <= i < j < |s| ==> s[i].id != s[j].id
  }

  /** Inserts `p` before the first row whose id is not smaller. */
  function Insert(p: Project, s: seq<Project>): (r: seq<Project>)
    requires SortedById(s)
    ensures SortedById(r)
    ensures multiset(r) == multiset(s) + multiset{p}
    ensures |r| == |s| + 1 && (r[0] == p || (s != [] && r[0] == s[0]))
  {
    if s == [] then [p]
    else if p.id <= s[0].id then [p] + s
    else
      assert s == [s[0]] + s[1..];
      [s[0]] + Insert(p, s[1..])
  }

  /** The rows of the table in ascending id order (`order(:id)`). */
  function OrderById(table: seq<Project>): (r: seq<Project>)
    ensures SortedById(r)
    ensures multiset(r) == multiset(table)
  {
    if table == [] then []
    else
      assert table == [table[0]] + table[1..];
      Insert(table[0], OrderById(table[1..]))
  }

  lemma ConsStrict(x: Project, t: seq<Project>)
    requires StrictlySortedById(t)
    requires t != [] ==> x.id < t[0].id
    ensures StrictlySortedById([x] + t)
  {
  }

  lemma {:induction false} InsertStrict(p: Project, s: seq<Project>)
    requires StrictlySortedById(s)
    requires forall q :: q in s ==> q.id != p.id
    ensures StrictlySortedById(Insert(p, s))
  {
    if s == [] {
    } else if p.id <= s[0].id {
      assert s[0] in s;
      ConsStrict(p, s);
    } else {
      assert forall q :: q in s[1..] ==> q in s;
      InsertStrict(p, s[1..]);
      ConsStrict(s[0], Insert(p, s[1..]));
    }
  }

  /** With distinct ids the order is strict. */
  lemma {:induction false} OrderByIdStrict(table: seq<Project>)
    requires DistinctIds(table)
    ensures StrictlySortedById(OrderById(table))
  {
    if table != [] {
      OrderByIdStrict(table[1..]);
      forall q | q in OrderById(table[1..]) ensures q.id != table[0].id {
        assert q in multiset(OrderById(table[1..]));
        assert q in multiset(table[1..]);
        var k :| 1 <= k < |table| && table[k] == q;
      }
      InsertStrict(table[0], OrderById(table[1..]));
    }
  }

  lemma MultisetTail(a: seq<Project>)
    requires a != []
    ensures multiset(a[1..]) == multiset(a) - multiset{a[0]}
  {
    assert a == [a[0]] + a[1..];
  }

  /** Strictly ordered arrangements of the same rows start with the same row. */
  lemma StrictHead(a: seq<Project>, b: seq<Project>)
    requires StrictlySortedById(a) && StrictlySortedById(b)
    requires multiset(a) == multiset(b) && a != []
    ensures b != [] && a[0] == b[0]
  {
    assert a[0] in multiset(b);
    var j :| 0 <= j < |b| && b[j] == a[0];
    assert b[0] in multiset(a);
    var i :| 0 <= i < |a| && a[i] == b[0];
    assert a[0].id <= a[i].id;
    assert i == 0;
  }

  /** Two strictly id-ordered arrangements of the same rows are the same
      sequence: `OrderById` is the ascending-id order, not one of several. */
  lemma {:induction false} IdOrderUnique(a: seq<Project>, b: seq<Project>)
    requires StrictlySortedById(a) && StrictlySortedById(b)
    requires multiset(a) == multiset(b)
    ensures a == b
  {
    if a == [] {
      assert |b| == |multiset(b)| == 0;
    } else {
      StrictHead(a, b);
      MultisetTail(a);
      MultisetTail(b);
      IdOrderUnique(a[1..], b[1..]);
      assert a == [a[0]] + a[1..];
      assert b == [b[0]] + b[1..];
    }
  }

  /** A table already in id order comes back unchanged. */
  lemma {:induction false} OrderByIdOfSorted(table: seq<Project>)
    requires SortedById(table)
    ensures OrderById(table) == table
  {
    if table != [] {
      OrderByIdOfSorted(table[1..]);
      assert table == [table[0]] + table[1..];
    }
  }

  // ---------------------------------------------------------------------
  // offset / limit

  /** The window options; each applies only when it is given. */
  datatype Options = Options(offset: Option<nat>, limit: Option<nat>)

  function Min(a: int, b: int): int {
    if a <= b then a else b
  }

  function ApplyOffset<T>(s: seq<T>, offset: Option<nat>): seq<T> {
    match offset
    case None => s
    case Some(k) => if k <= |s| then s[k..] else []
  }

  function ApplyLimit<T>(s: seq<T>, limit: Option<nat>): seq<T> {
    match limit
    case None => s
    case Some(k) => if k <= |s| then s[..k] else s
  }

  function OffsetOf(opts: Options): nat {
    match opts.offset
    case None => 0
    case Some(k) => k
  }

  /** `offset(...)` then `limit(...)`: the contiguous run of rows that starts
      after the first `offset` rows and holds at most `limit` of them. */
  function Window<T>(s: seq<T>, opts: Options): (r: seq<T>)
    ensures |r| == (var rest := |s| - Min(OffsetOf(opts), |s|);
                    match opts.limit case None => rest case Some(k) => Min(k, rest))
    ensures forall i :: 0 <= i < |r| ==> OffsetOf(opts) + i < |s| && r[i] == s[OffsetOf(opts) + i]
  {
    ApplyLimit(ApplyOffset(s, opts.offset), opts.limit)
  }

  /** The projects `to_csv` writes, in the order it writes them. */
  function Selected(table: seq<Project>, opts: Options): seq<Project> {
    Window(OrderById(table), opts)
  }

  /** A window of an id-ordered sequence is id-ordered. */
  lemma WindowSorted(s: seq<Project>, opts: Options)
    requires SortedById(s)
    ensures SortedById(Window(s, opts))
  {
    var r := Window(s, opts);
    var o := OffsetOf(opts);
    forall i, j | 0 <= i < j < |r| ensures r[i].id <= r[j].id {
      assert r[i] == s[o + i];
      assert r[j] == s[o + j];
    }
  }

  /** The projects are written in ascending id order. */
  lemma SelectedInIdOrder(table: seq<Project>, opts: Options)
    ensures SortedById(Selected(table, opts))
  {
    WindowSorted(OrderById(table), opts);
  }

  // ---------------------------------------------------------------------
  // to_csv / to_csv_x

  function SelectAll(ps: seq<Project>): (r: seq<Columns>)
    ensures |r| == |ps| && forall i :: 0 <= i < |ps| ==> r[i] == Select(ps[i])
  {
    seq(|ps|, i requires 0 <= i < |ps| => Select(ps[i]))
  }

  /** The records of `cs`, as field lists. */
  function RowsOf(cs: seq<Columns>): (r: seq<seq<string>>)
    ensures |r| == |cs| && Csv.AllNonEmpty(r)
    ensures forall i :: 0 <= i < |cs| ==> r[i] == Fields(cs[i])
  {
    if cs == [] then [] else RowsOf(cs[..|cs| - 1]) + [Fields(cs[|cs| - 1])]
  }

  lemma {:induction false} RowsOfAt(cs: seq<Columns>, i: nat)
    requires i < |cs|
    ensures RowsOf(cs)[i] == Fields(cs[i])
  {
    if i < |cs| - 1 {
      RowsOfAt(cs[..|cs| - 1], i);
    }
  }

  /** The header record followed by the records of `cs`. */
  function Records(cs: seq<Columns>): (r: seq<seq<string>>)
    ensures |r| == |cs| + 1 && Csv.AllNonEmpty(r) && r[0] == CsvHeaders
    ensures forall i :: 0 <= i < |cs| ==> r[i + 1] == Fields(cs[i]) && |r[i + 1]| == 3
  {
    [CsvHeaders] + RowsOf(cs)
  }

  /** The file once the BOM, the header and the records of `cs` are written. */
  function Written(cs: seq<Columns>): (file: string) {
    [Bom] + Csv.Lines(Records(cs))
  }

  /** The whole file the export writes: the BOM, the header record, then one
      record per selected project. */
  function ProjectsCsv(table: seq<Project>, opts: Options): (file: string) {
    Written(SelectAll(Selected(table, opts)))
  }

  /** Before any record, the file holds the BOM and the header record. */
  lemma WrittenEmpty()
    ensures Written([]) == [Bom] + Csv.Line(CsvHeaders)
  {
    assert Records([]) == [CsvHeaders];
    Csv.LinesOne(CsvHeaders);
  }

  lemma HeaderRowsSnoc(h: seq<string>, cs: seq<Columns>)
    requires cs != []
    ensures [h] + RowsOf(cs) == ([h] + RowsOf(cs[..|cs| - 1])) + [Fields(cs[|cs| - 1])]
  {
    ConcatAssoc([h], RowsOf(cs[..|cs| - 1]), [Fields(cs[|cs| - 1])]);
  }

  lemma WrittenStep(cs: seq<Columns>, i: nat)
    requires i < |cs|
    ensures Written(cs[..i + 1]) == Written(cs[..i]) + Csv.Line(Fields(cs[i]))
  {
    var rows := Records(cs[..i]);
    HeaderRowsSnoc(CsvHeaders, cs[..i + 1]);
    assert cs[..i + 1][..i] == cs[..i];
    Csv.LinesAppend(rows, Fields(cs[i]));
    AppendBoth(Written(cs[..i]), [Bom], Csv.Lines(rows), Csv.Lines(rows + [Fields(cs[i])]), Csv.Line(Fields(cs[i])));
  }

  /** The body of `CSV.open` in `to_csv`: the BOM, the header record, then
      `csv << [row.id, row.name, row.description]` for each loaded row. */
  method WriteRows(rows: seq<Columns>) returns (file: string)
    ensures file == Written(rows)
  {
    file := [Bom] + Csv.Line(CsvHeaders);
    WrittenEmpty();
    assert rows[..0] == [];
    var i := 0;
    while i < |rows|
      invariant 0 <= i <= |rows|
      invariant file == Written(rows[..i])
    {
      WrittenStep(rows, i);
      file := file + Csv.Line(Fields(rows[i]));
      i := i + 1;
    }
    assert rows[..i] == rows;
  }

  /** `to_csv`: loads the window with only the exported columns, then writes
      the file. */
  method ToCsv(table: seq<Project>, opts: Options) returns (file: string)
    ensures file == ProjectsCsv(table, opts)
  {
    var rows := SelectAll(Selected(table, opts));
    file := WriteRows(rows);
  }

  /** `[row.id, row.name, row.description]` read off a whole record. */
  function RecordFields(p: Project): (r: seq<string>)
    ensures r == Fields(Select(p))
  {
    [IntToDec(p.id), OrEmpty(p.name), OrEmpty(p.description)]
  }

  /** The body of `CSV.open` in `to_csv_x`: the same file, with the three
      attributes read off each whole record. */
  method WriteRecords(projects: seq<Project>) returns (file: string)
    ensures file == Written(SelectAll(projects))
  {
    ghost var cols := SelectAll(projects);
    file := [Bom] + Csv.Line(CsvHeaders);
    WrittenEmpty();
    assert cols[..0] == [];
    var i := 0;
    while i < |projects|
      invariant 0 <= i <= |projects|
      invariant file == Written(cols[..i])
    {
      WrittenStep(cols, i);
      file := file + Csv.Line(RecordFields(projects[i]));
      i := i + 1;
    }
    assert cols[..i] == cols;
  }

  /** `to_csv_x`: loads the window as whole records, then writes the file. */
  method ToCsvX(table: seq<Project>, opts: Options) returns (file: string)
    ensures file == ProjectsCsv(table, opts)
  {
    var projects := Selected(table, opts);
    file := WriteRecords(projects);
  }

  /** Reads an export back: an optional BOM, then force-quoted records. */
  function ReadCsv(s: string): Option<seq<seq<string>>> {
    if |s| >= 1 && s[0] == Bom then Csv.ParseRecords(s[1..]) else Csv.ParseRecords(s)
  }

  lemma BomLinesReadBack(rows: seq<seq<string>>)
    requires Csv.AllNonEmpty(rows)
    ensures ReadCsv([Bom] + Csv.Lines(rows)) == Some(rows)
  {
    var s := [Bom] + Csv.Lines(rows);
    assert s[1..] == Csv.Lines(rows);
    Csv.ParseLines(rows);
  }

  /** Reading the export back gives exactly the records written: the header,
      then one record per selected project. */
  lemma ProjectsCsvReadsBack(table: seq<Project>, opts: Options)
    ensures ReadCsv(ProjectsCsv(table, opts)) == Some(Records(SelectAll(Selected(table, opts))))
  {
    BomLinesReadBack(Records(SelectAll(Selected(table, opts))));
  }

  /** Each record read back holds the project's id, which reads back as the
      same integer, then its name and its description (nil as empty). */
  lemma RecordsReadBack(ps: seq<Project>)
    ensures var recs := RowsOf(SelectAll(ps));
            |recs| == |ps| &&
            forall i :: 0 <= i < |ps| ==>
              |recs[i]| == 3 &&
              DecToInt(recs[i][0]) == Some(ps[i].id) &&
              recs[i][1] == OrEmpty(ps[i].name) &&
              recs[i][2] == OrEmpty(ps[i].description)
  {
    var cs := SelectAll(ps);
    forall i | 0 <= i < |ps| ensures RowsOf(cs)[i] == Fields(cs[i]) && DecToInt(IntToDec(ps[i].id)) == Some(ps[i].id) {
      RowsOfAt(cs, i);
      IntToDecRoundTrip(ps[i].id);
    }
  }

  // ---------------------------------------------------------------------
  // csv_name

  /** A reading of the application's clock (`Time.zone.now`), broken into the
      fields `strftime` prints; `zone` is the zone abbreviation (`%Z`). */
  datatype LocalTime = LocalTime(
    year: nat, month: nat, day: nat,
    hour: nat, minute: nat, second: nat, millis: nat,
    zone: string)

  /** Field ranges of a clock reading; `second` may be 60 on a leap second. */
  predicate ValidTime(t: LocalTime) {
    1 <= t.month <= 12 && 1 <= t.day <= 31 &&
    t.hour < 24 && t.minute < 60 && t.second <= 60 && t.millis < 1000
  }

  /** `p`, the separator `sep`, then `n` zero-padded to `width` digits. */
  function Field(p: string, sep: string, n: nat, width: nat): string {
    p + sep + PadDec(n, width)
  }

  /** `strftime('%F_%H_%M_%S_%L%Z')`: `%F` is `%Y-%m-%d`, the year padded to
      at least four digits, the other numbers to two digits, the
      milliseconds to three, then the zone abbreviation. */
  function Stamp(t: LocalTime): (s: string) {
    var date := Field(Field(PadDec(t.year, 4), "-", t.month, 2), "-", t.day, 2);
    var clock := Field(Field(Field(date, "_", t.hour, 2), "_", t.minute, 2), "_", t.second, 2);
    Field(clock, "_", t.millis, 3) + t.zone
  }

  /** `csv_name`: the export file under `<root>/csvs/`, named after the clock. */
  function CsvName(root: string, now: LocalTime): (path: string) {
    root + "/csvs/projects_" + Stamp(now) + ".csv"
  }

  /** The padded fields have fixed width: the stamp of a four-digit year is 23
      characters before the zone. */
  lemma StampWidth(t: LocalTime)
    requires ValidTime(t) && t.year < 10000
    ensures |Stamp(t)| == 23 + |t.zone|
  {
    PadDecWidth(t.year, 4);
    PadDecWidth(t.month, 2);
    PadDecWidth(t.day, 2);
    PadDecWidth(t.hour, 2);
    PadDecWidth(t.minute, 2);
    PadDecWidth(t.second, 2);
    PadDecWidth(t.millis, 3);
  }

  lemma FieldInjective(p: string, q: string, sep: string, n: nat, m: nat, width: nat)
    requires 1 <= width && n < Pow10(width) && m < Pow10(width)
    requires Field(p, sep, n, width) == Field(q, sep, m, width)
    ensures p == q && n == m
  {
    PadDecWidth(n, width);
    PadDecWidth(m, width);
    ConcatCancel(p + sep, PadDec(n, width), q + sep, PadDec(m, width));
    ConcatCancel(p, sep, q, sep);
    PadDecInjective(n, m, width);
  }

  /** Two clock readings in the same zone give the same stamp only when they
      agree to the millisecond. */
  lemma StampInjective(t: LocalTime, u: LocalTime)
    requires ValidTime(t) && ValidTime(u) && t.zone == u.zone
    requires Stamp(t) == Stamp(u)
    ensures t == u
  {
    var dt := Field(Field(PadDec(t.year, 4), "-", t.month, 2), "-", t.day, 2);
    var du := Field(Field(PadDec(u.year, 4), "-", u.month, 2), "-", u.day, 2);
    var ct := Field(Field(Field(dt, "_", t.hour, 2), "_", t.minute, 2), "_", t.second, 2);
    var cu := Field(Field(Field(du, "_", u.hour, 2), "_", u.minute, 2), "_", u.second, 2);
    ConcatCancel(Field(ct, "_", t.millis, 3), t.zone, Field(cu, "_", u.millis, 3), u.zone);
    FieldInjective(ct, cu, "_", t.millis, u.millis, 3);
    FieldInjective(Field(Field(dt, "_", t.hour, 2), "_", t.minute, 2),
                   Field(Field(du, "_", u.hour, 2), "_", u.minute, 2), "_", t.second, u.second, 2);
    FieldInjective(Field(dt, "_", t.hour, 2), Field(du, "_", u.hour, 2), "_", t.minute, u.minute, 2);
    FieldInjective(dt, du, "_", t.hour, u.hour, 2);
    FieldInjective(Field(PadDec(t.year, 4), "-", t.month, 2), Field(PadDec(u.year, 4), "-", u.month, 2),
                   "-", t.day, u.day, 2);
    FieldInjective(PadDec(t.year, 4), PadDec(u.year, 4), "-", t.month, u.month, 2);
    PadDecInjective(t.year, u.year, 4);
  }

  /** Exports started at different milliseconds (in the same zone) never
      share a file name. */
  lemma CsvNameInjective(root: string, t: LocalTime, u: LocalTime)
    requires ValidTime(t) && ValidTime(u) && t.zone == u.zone
    requires CsvName(root, t) == CsvName(root, u)
    ensures t == u
  {
    var p := root + "/csvs/projects_";
    ConcatCancel(p + Stamp(t), ".csv", p + Stamp(u), ".csv");
    ConcatCancel(p, Stamp(t), p, Stamp(u));
    StampInjective(t, u);
  }

  // The padded fields of 2020-01-02 08:59:59.000.
  lemma PadYear() ensures PadDec(2020, 4) == "2020" {}
  lemma PadMonth() ensures PadDec(1, 2) == "01" {}
  lemma PadDay() ensures PadDec(2, 2) == "02" {}
  lemma PadHour() ensures PadDec(8, 2) == "08" {}
  lemma PadSixty() ensures PadDec(59, 2) == "59" {}
  lemma PadMillis() ensures PadDec(0, 3) == "000" {}

  lemma StampExample(t: LocalTime)
    requires t == LocalTime(2020, 1, 2, 8, 59, 59, 0, "JST")
    ensures Stamp(t) == "2020-01-02_08_59_59_000JST"
  {
    PadYear();
    PadMonth();
    PadDay();
    PadHour();
    PadSixty();
    PadMillis();
  }

  lemma ExampleName(root: string, stamp: string)
    requires stamp == "2020-01-02_08_59_59_000JST"
    ensures root + "/csvs/projects_" + stamp + ".csv" == root + "/csvs/projects_2020-01-02_08_59_59_000JST.csv"
  {
  }

  /** The file name of an export started at 2020-01-02 08:59:59.000 JST. */
  lemma CsvNameExample(root: string, t: LocalTime)
    requires t == LocalTime(2020, 1, 2, 8, 59, 59, 0, "JST")
    ensures CsvName(root, t) == root + "/csvs/projects_2020-01-02_08_59_59_000JST.csv"
  {
    StampExample(t);
    ExampleName(root, Stamp(t));
  }

  // ---------------------------------------------------------------------
  // validates :name, presence: true, uniqueness: { case_sensitive: true }

  /** The two ways `name` can fail validation: "can't be blank" and "has
      already been taken". */
  datatype NameError = Blank | Taken

  /** Whether another row already holds exactly this name; the database
      compares `NULL` with `IS NULL`, so a missing name is taken by another
      missing name. */
  predicate NameTaken(name: Option<string>, others: seq<Project>) {
    exists i :: 0 <= i < |others| && others[i].name == name
  }

  /** The errors the validators add for `name`, given the other rows of the
      table (the record itself excluded, as Rails does for a saved record).
      Both validators run, so both errors can be present. */
  function NameErrors(name: Option<string>, others: seq<Project>): (r: set<NameError>)
    ensures r <= {Blank, Taken}
  {
    (if IsBlank(name) then {Blank} else {}) + (if NameTaken(name, others) then {Taken} else {})
  }

  /** A name passes validation exactly when it is present and no other row
      holds the same string, compared case-sensitively. */
  lemma NameValidIff(name: Option<string>, others: seq<Project>)
    ensures NameErrors(name, others) == {} <==>
            (name.Some? && (exists i :: 0 <= i < |name.value| && !IsSpace(name.value[i])) &&
             forall i :: 0 <= i < |others| ==> others[i].name != name)
  {
    if NameErrors(name, others) == {} {
      assert Blank !in NameErrors(name, others);
      assert Taken !in NameErrors(name, others);
    } else if Blank in NameErrors(name, others) {
      assert IsBlank(name);
    } else {
      assert Taken in NameErrors(name, others);
    }
  }

  /** Row names are pairwise distinct. */
  predicate UniqueNames(table: seq<Project>) {
    forall i, j :: 0 <= i < j < |table| ==> table[i].name != table[j].name
  }

  /** Every row has a name that is not blank. */
  predicate PresentNames(table: seq<Project>) {
    forall i :: 0 <= i < |table| ==> !IsBlank(table[i].name)
  }

  /** Saving only records that pass validation keeps every name present and
      no name twice. */
  lemma ValidSaveKeepsNames(table: seq<Project>, p: Project)
    requires UniqueNames(table) && PresentNames(table)
    requires NameErrors(p.name, table) == {}
    ensures UniqueNames(table + [p]) && PresentNames(table + [p])
  {
    assert Blank !in NameErrors(p.name, table);
    assert Taken !in NameErrors(p.name, table);
    assert !NameTaken(p.name, table);
  }

  /** A nil, empty or all-space name is invalid. */
  lemma BlankNameRejected(name: Option<string>, others: seq<Project>)
    requires name == None || name == Some("") || name == Some("  ")
    ensures Blank in NameErrors(name, others)
  {
  }

  /** `Project.new(name: 'Aaron')` is valid in an empty table. */
  lemma AaronValid(name: Option<string>)
    requires name == Some("Aaron")
    ensures NameErrors(name, []) == {}
  {
    assert !IsSpace(name.value[0]);
  }

  /** A name equal to a stored one is taken; one differing only in case is
      not. */
  lemma NameCaseSensitive(stored: Project, others: seq<Project>)
    requires stored.name == Some("Aaron") && others == [stored]
    ensures Taken in NameErrors(Some("Aaron"), others)
    ensures NameErrors(Some("aaron"), others) == {}
  {
    assert others[0].name == Some("Aaron");
    assert Some("aaron") != Some("Aaron") by {
      assert "aaron"[0] != "Aaron"[0];
    }
    assert !IsSpace("aaron"[0]);
  }

  // ---------------------------------------------------------------------
  // The projects spec/models/project_spec.rb:18-37 creates

  /** The n-th seeded project: "Project n", "Test project n.". */
  function SeedProject(n: nat): Project
    requires 1 <= n <= 9
  {
    Project(n, Some("Project " + NatToDec(n)), Some("Test project " + NatToDec(n) + "."), None, 0, 0)
  }

  function Quoted(f: string): string {
    "\"" + f + "\""
  }

  /** `"id","name","description"` and a line feed. */
  const HeaderLine: string := Quoted("id") + "," + Quoted("name") + "," + Quoted("description") + "\n"

  /** `"n","Project n","Test project n."` and a line feed. */
  function SeedLine(n: nat): string
    requires 1 <= n <= 9
  {
    var d := [DigitChar(n)];
    Quoted(d) + "," + Quoted("Project " + d) + "," + Quoted("Test project " + d + ".") + "\n"
  }

  /** Three fields without double quotes are written as they are. */
  lemma PlainLine(a: string, b: string, c: string)
    requires '"' !in a && '"' !in b && '"' !in c
    ensures Csv.Line([a, b, c]) == Quoted(a) + "," + Quoted(b) + "," + Quoted(c) + "\n"
  {
    Csv.EscapePlain(a);
    Csv.EscapePlain(b);
    Csv.EscapePlain(c);
    Csv.ThreeFields(a, b, c);
  }

  lemma SeedRecordLine(n: nat)
    requires 1 <= n <= 9
    ensures Csv.Line(Fields(Select(SeedProject(n)))) == SeedLine(n)
  {
    var d := [DigitChar(n)];
    assert NatToDec(n) == d;
    assert Fields(Select(SeedProject(n))) == [d, "Project " + d, "Test project " + d + "."];
    PlainLine(d, "Project " + d, "Test project " + d + ".");
  }

  lemma HeaderRecordLine(h: seq<string>)
    requires h == CsvHeaders
    ensures Csv.Line(h) == HeaderLine
  {
    assert h == [h[0], h[1], h[2]];
    PlainLine(h[0], h[1], h[2]);
  }

  /** The first `k` seeded projects, as spec/models/project_spec.rb:18-37
      creates them. */
  function SeedTable(k: nat): (r: seq<Project>)
    requires k <= 9
    ensures |r| == k && forall i :: 0 <= i < k ==> r[i] == SeedProject(i + 1)
  {
    seq(k, i requires 0 <= i < k => SeedProject(i + 1))
  }

  /** `w` followed by the lines `ls`, one after another. */
  function Appended(w: string, ls: seq<string>): string {
    if ls == [] then w else Appended(w, ls[..|ls| - 1]) + ls[|ls| - 1]
  }

  /** The export is the BOM and the header followed by the written form of
      each record, in order. */
  lemma {:induction false} WrittenFrom(cs: seq<Columns>, ls: seq<string>)
    requires |ls| == |cs| && forall i :: 0 <= i < |cs| ==> Csv.Line(Fields(cs[i])) == ls[i]
    ensures Written(cs) == Appended(Written([]), ls)
  {
    if cs != [] {
      var k := |cs| - 1;
      WrittenFrom(cs[..k], ls[..k]);
      WrittenStep(cs, k);
      assert cs[..k + 1] == cs;
    }
  }

  /** The BOM and the header record, as the tests expect them. */
  lemma WrittenHeader(cs: seq<Columns>)
    requires cs == []
    ensures Written(cs) == [Bom] + HeaderLine
  {
    WrittenEmpty();
    HeaderRecordLine(CsvHeaders);
  }

  lemma AppendedTwo(w: string, a: string, b: string)
    ensures Appended(w, [a, b]) == w + a + b
  {
    assert [a][..0] == [];
    assert Appended(w, [a]) == w + a;
    assert [a, b][..1] == [a];
  }

  lemma AppendedThree(w: string, a: string, b: string, c: string)
    ensures Appended(w, [a, b, c]) == w + a + b + c
  {
    assert [a, b, c][..2] == [a, b];
    AppendedTwo(w, a, b);
  }

  lemma WrittenTwo(cs: seq<Columns>, a: string, b: string)
    requires |cs| == 2 && Csv.Line(Fields(cs[0])) == a && Csv.Line(Fields(cs[1])) == b
    ensures Written(cs) == [Bom] + HeaderLine + a + b
  {
    WrittenFrom(cs, [a, b]);
    WrittenHeader([]);
    AppendedTwo([Bom] + HeaderLine, a, b);
  }

  lemma WrittenThree(cs: seq<Columns>, a: string, b: string, c: string)
    requires |cs| == 3 && Csv.Line(Fields(cs[0])) == a && Csv.Line(Fields(cs[1])) == b
    requires Csv.Line(Fields(cs[2])) == c
    ensures Written(cs) == [Bom] + HeaderLine + a + b + c
  {
    WrittenFrom(cs, [a, b, c]);
    WrittenHeader([]);
    AppendedThree([Bom] + HeaderLine, a, b, c);
  }

  /** Projects 1 to 3 exported with offset 1 and limit 2: the BOM, the header
      and the records of projects 2 and 3 only. */
  lemma OffsetLimitExample(table: seq<Project>, opts: Options)
    requires table == SeedTable(3) && opts == Options(Some(1), Some(2))
    ensures ProjectsCsv(table, opts) == [Bom] + HeaderLine + SeedLine(2) + SeedLine(3)
  {
    OrderByIdOfSorted(table);
    var cs := SelectAll(Selected(table, opts));
    assert |cs| == 2 && cs[0] == Select(table[1]) && cs[1] == Select(table[2]);
    SeedRecordLine(2);
    SeedRecordLine(3);
    WrittenTwo(cs, SeedLine(2), SeedLine(3));
  }

  /** Without options every project is exported, in id order. */
  lemma NoOptionsExample(table: seq<Project>, opts: Options)
    requires table == SeedTable(3) && opts == Options(None, None)
    ensures ProjectsCsv(table, opts) == [Bom] + HeaderLine + SeedLine(1) + SeedLine(2) + SeedLine(3)
  {
    OrderByIdOfSorted(table);
    var cs := SelectAll(Selected(table, opts));
    assert |cs| == 3 && cs[0] == Select(table[0]) && cs[1] == Select(table[1]) && cs[2] == Select(table[2]);
    SeedRecordLine(1);
    SeedRecordLine(2);
    SeedRecordLine(3);
    WrittenThree(cs, SeedLine(1), SeedLine(2), SeedLine(3));
  }
}

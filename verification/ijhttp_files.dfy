/** The decision rules of `backend/src/services/ijhttpFiles.js` around its SQL: paging in
    `queryFiles`, validation in `createHttpFile`, and the dynamically built UPDATE of
    `updateHttpFile`. The `http_files` table is an abstract map from id to row. */
module IjhttpFiles {
  import opened Wrappers
  import Text

  /** A row of `http_files`; `created_at` is a clock reading supplied by the caller. */
  datatype FileRecord = FileRecord(id: int, filename: string, content: string, createdAt: int)

  /** The table: rows by id, and the largest id AUTOINCREMENT has handed out so far. */
  datatype Table = Table(rows: map<int, FileRecord>, lastId: nat)

  /** Every row sits under its own id, and no id exceeds the last one handed out. */
  ghost predicate Valid(t: Table) {
    forall id :: id in t.rows ==> 1 <= id <= t.lastId && t.rows[id].id == id
  }

  datatype FilesError = FileNameRequired | IdRequired | NoFieldsProvided | FileNotFound

  function Message(e: FilesError): string {
    match e
    case FileNameRequired => "fileName is required"
    case IdRequired => "File ID is required"
    case NoFieldsProvided => "At least one field (fileName or content) must be provided"
    case FileNotFound => "File not found"
  }

  // ---------------------------------------------------------------- queryFiles

  /** What `queryFiles` returns: the row count, one page of rows, and the page parameters. */
  datatype PageResult = PageResult(total: int, data: seq<FileRecord>, page: int, pageSize: int)

  /** `listing` is the table's ids in the order `ORDER BY created_at DESC` yields them (the order
      among equal timestamps is the storage engine's choice). */
  ghost predicate IsListing(t: Table, listing: seq<int>) {
    && (forall k :: 0 <= k < |listing| ==> listing[k] in t.rows)
    && (forall id :: id in t.rows ==> id in listing)
    && (forall p, q :: 0 <= p < q < |listing| ==> listing[p] != listing[q])
    && (forall p, q :: 0 <= p < q < |listing| ==>
          t.rows[listing[p]].createdAt >= t.rows[listing[q]].createdAt)
  }

  /** Where SQLite's `OFFSET offset` starts among `n` rows: a negative offset counts as zero. */
  function WindowStart(n: nat, offset: int): nat {
    if offset <= 0 then 0 else if offset >= n then n else offset
  }

  /** Where SQLite's `LIMIT limit OFFSET offset` stops: a negative limit means no bound. */
  function WindowEnd(n: nat, offset: int, limit: int): nat {
    var s := WindowStart(n, offset);
    if limit < 0 || s + limit >= n then n else s + limit
  }

  function RowsOf(t: Table, ids: seq<int>): (rs: seq<FileRecord>)
    requires forall k :: 0 <= k < |ids| ==> ids[k] in t.rows
    ensures |rs| == |ids|
  {
    seq(|ids|, k requires 0 <= k < |ids| => t.rows[ids[k]])
  }

  /** `queryFiles(page = 1, pageSize = 10)`: skips `(page - 1) * pageSize` rows of the listing and
      returns up to `pageSize` of the rest, together with the row count and the page parameters. */
  function QueryFiles(t: Table, listing: seq<int>, page: Option<int>, pageSize: Option<int>)
    : (r: PageResult)
    requires IsListing(t, listing)
    ensures r.page == page.GetOr(1) && r.pageSize == pageSize.GetOr(10)
    ensures r.total == |t.rows|
    ensures r.pageSize >= 0 ==> |r.data| <= r.pageSize
    ensures var start := WindowStart(|listing|, (r.page - 1) * r.pageSize);
            && start + |r.data| <= |listing|
            && (forall k :: 0 <= k < |r.data| ==> r.data[k] == t.rows[listing[start + k]])
            && (r.pageSize < 0 || start + r.pageSize >= |listing| ==> start + |r.data| == |listing|)
            && (0 <= r.pageSize && start + r.pageSize < |listing| ==> |r.data| == r.pageSize)
    ensures forall p, q :: 0 <= p < q < |r.data| ==> r.data[p].createdAt >= r.data[q].createdAt
  {
    var p := page.GetOr(1);
    var size := pageSize.GetOr(10);
    var offset := (p - 1) * size;
    var ids := listing[WindowStart(|listing|, offset)..WindowEnd(|listing|, offset, size)];
    PageResult(|t.rows|, RowsOf(t, ids), p, size)
  }

  /** The rows of pages `1..p`, one page after another. */
  ghost function PagesUpTo(t: Table, listing: seq<int>, pageSize: int, p: nat): seq<FileRecord>
    requires IsListing(t, listing)
  {
    if p == 0 then []
    else PagesUpTo(t, listing, pageSize, p - 1) + QueryFiles(t, listing, Some(p), Some(pageSize)).data
  }

  lemma MulFacts(p: nat, n: nat)
    requires p > 0
    ensures (p - 1) * n >= 0 && p * n == (p - 1) * n + n
  {
  }

  /** With a positive page size, pages `1..p` read in turn give exactly the first `p * pageSize`
      rows of the listing: no row is skipped or repeated between consecutive pages. */
  lemma {:induction false} PagesTile(t: Table, listing: seq<int>, pageSize: int, p: nat)
    requires IsListing(t, listing) && pageSize > 0
    ensures var m := if p * pageSize < |listing| then p * pageSize else |listing|;
            PagesUpTo(t, listing, pageSize, p) == RowsOf(t, listing[..m])
  {
    if p > 0 {
      PagesTile(t, listing, pageSize, p - 1);
      MulFacts(p, pageSize);
      var before := (p - 1) * pageSize;
      var m0 := if before < |listing| then before else |listing|;
      var m := if p * pageSize < |listing| then p * pageSize else |listing|;
      NextPage(t, listing, pageSize, p, m0, m);
    } else {
      assert p * pageSize == 0;
      assert RowsOf(t, listing[..0]) == [];
    }
  }

  /** Page `p` continues the listing exactly where the pages before it stopped. */
  lemma NextPage(t: Table, listing: seq<int>, pageSize: int, p: nat, m0: nat, m: nat)
    requires IsListing(t, listing) && pageSize > 0 && p > 0
    requires (p - 1) * pageSize >= 0 && p * pageSize == (p - 1) * pageSize + pageSize
    requires m0 == if (p - 1) * pageSize < |listing| then (p - 1) * pageSize else |listing|
    requires m == if p * pageSize < |listing| then p * pageSize else |listing|
    ensures RowsOf(t, listing[..m0]) + QueryFiles(t, listing, Some(p), Some(pageSize)).data
            == RowsOf(t, listing[..m])
  {
    var page := QueryFiles(t, listing, Some(p), Some(pageSize)).data;
    assert WindowStart(|listing|, (p - 1) * pageSize) == m0;
    var whole := RowsOf(t, listing[..m]);
    var prefix := RowsOf(t, listing[..m0]);
    assert |page| == m - m0;
    forall k | 0 <= k < m
      ensures (prefix + page)[k] == whole[k]
    {
      if k >= m0 {
        assert (prefix + page)[k] == page[k - m0];
      }
    }
  }

  lemma DivModFacts(i: nat, n: nat)
    requires n > 0
    ensures (i / n) * n == i - i % n && 0 <= i % n < n
  {
  }

  /** With a positive page size, the row at listing position `i` is shown on page
      `i / pageSize + 1`, at position `i % pageSize`. */
  lemma RowOnItsPage(t: Table, listing: seq<int>, pageSize: int, i: int)
    requires IsListing(t, listing) && pageSize > 0 && 0 <= i < |listing|
    ensures var r := QueryFiles(t, listing, Some(i / pageSize + 1), Some(pageSize));
            i % pageSize < |r.data| && r.data[i % pageSize] == t.rows[listing[i]]
  {
    DivModFacts(i, pageSize);
    var start := i - i % pageSize;
    assert (i / pageSize + 1 - 1) * pageSize == start;
    assert WindowStart(|listing|, start) == start;
  }

  // ----------------------------------------------------------- createHttpFile

  /** What `createHttpFile` returns: the new id and the stored name and content. */
  datatype Created = Created(id: int, filename: string, content: string)

  /** `createHttpFile(fileName, content = '')`: a missing or empty name is rejected; otherwise a
      row is inserted under the next AUTOINCREMENT id, timestamped `now`. */
  function CreateHttpFile(t: Table, fileName: Option<string>, content: Option<string>, now: int)
    : (r: Result<(Table, Created), FilesError>)
    ensures r.Failure? <==> fileName.None? || fileName.value == ""
    ensures r.Failure? ==> r.error == FileNameRequired
    ensures r.Success? ==>
      var t' := r.value.0;
      var c := r.value.1;
      && c.filename == fileName.value
      && c.content == content.GetOr("")
      && t'.rows.Keys == t.rows.Keys + {c.id}
      && t'.rows[c.id] == FileRecord(c.id, c.filename, c.content, now)
      && (Valid(t) ==>
            && c.id !in t.rows
            && (forall id :: id in t.rows ==> t'.rows[id] == t.rows[id])
            && Valid(t'))
  {
    match fileName
    case None => Failure(FileNameRequired)
    case Some(name) =>
      if name == "" then Failure(FileNameRequired)
      else
        var body := content.GetOr("");
        var id := t.lastId + 1;
        var row := FileRecord(id, name, body, now);
        Success((Table(t.rows[id := row], id), Created(id, name, body)))
  }

  // ----------------------------------------------------------- updateHttpFile

  /** A value bound to a `?` placeholder. */
  datatype SqlValue = TextValue(s: string) | Integer(n: int)

  /** The SET clauses of an UPDATE and the values bound to its placeholders, in order. */
  datatype UpdateStatement = UpdateStatement(sets: seq<string>, params: seq<SqlValue>)

  const FilenameSet: string := "filename = ?"
  const ContentSet: string := "content = ?"

  /** The SET clauses and parameters of `updateHttpFile`: `filename` then `content`, each only when
      its argument is not `undefined` (an empty string counts as given), then the id for the WHERE
      clause. `None` when there is nothing to set. */
  function BuildUpdate(id: int, fileName: Option<string>, content: Option<string>)
    : (r: Option<UpdateStatement>)
    ensures r.None? <==> fileName.None? && content.None?
    ensures r.Some? ==>
      var st := r.value;
      && Text.Count(UpdateSql(st), '?') == |st.params|
      && |st.sets| == (if fileName.Some? then 1 else 0) + (if content.Some? then 1 else 0)
      && |st.params| == |st.sets| + 1
      && st.params[|st.sets|] == Integer(id)
      && (FilenameSet in st.sets <==> fileName.Some?)
      && (ContentSet in st.sets <==> content.Some?)
      && (forall k :: 0 <= k < |st.sets| ==>
            (st.sets[k] == FilenameSet && st.params[k] == TextValue(fileName.value))
            || (st.sets[k] == ContentSet && st.params[k] == TextValue(content.value)))
      && (|st.sets| == 2 ==> st.sets[0] == FilenameSet && st.sets[1] == ContentSet)
  {
    var sets := (if fileName.Some? then [FilenameSet] else []) + (if content.Some? then [ContentSet] else []);
    var params := (if fileName.Some? then [TextValue(fileName.value)] else [])
                  + (if content.Some? then [TextValue(content.value)] else []);
    if |sets| == 0 then None
    else
      var st := UpdateStatement(sets, params + [Integer(id)]);
      PlaceholderCount(st);
      Some(st)
  }

  const SqlHead: string := "UPDATE http_files SET "
  const SqlTail: string := " WHERE id = "

  /** The SQL text `updateHttpFile` prepares. */
  function UpdateSql(st: UpdateStatement): string {
    SqlHead + Text.Join(st.sets, ", ") + SqlTail + "?"
  }

  lemma FixedTextHasNoPlaceholder()
    ensures Text.Count(SqlHead, '?') == 0 && Text.Count(SqlTail, '?') == 0
  {
    assert '?' !in SqlHead;
    assert '?' !in SqlTail;
    Text.CountAbsent(SqlHead, '?');
    Text.CountAbsent(SqlTail, '?');
  }

  /** Each SET clause of `BuildUpdate` holds one placeholder, and so does the WHERE clause. */
  lemma PlaceholderCount(st: UpdateStatement)
    requires forall k :: 0 <= k < |st.sets| ==> st.sets[k] == FilenameSet || st.sets[k] == ContentSet
    ensures Text.Count(UpdateSql(st), '?') == |st.sets| + 1
  {
    var joined := Text.Join(st.sets, ", ");
    Text.CountConcat(SqlHead + joined + SqlTail, "?", '?');
    Text.CountConcat(SqlHead + joined, SqlTail, '?');
    Text.CountConcat(SqlHead, joined, '?');
    FixedTextHasNoPlaceholder();
    JoinPlaceholders(st.sets);
  }

  lemma {:induction false} EndsInPlaceholder(prefix: string)
    requires '?' !in prefix
    ensures Text.Count(prefix + "?", '?') == 1
  {
    Text.CountConcat(prefix, "?", '?');
    Text.CountAbsent(prefix, '?');
    assert Text.Count("?", '?') == 1 + Text.Count("?"[1..], '?');
  }

  lemma FilenameSetHasOnePlaceholder()
    ensures Text.Count(FilenameSet, '?') == 1
  {
    assert FilenameSet == "filename = " + "?";
    EndsInPlaceholder("filename = ");
  }

  lemma ContentSetHasOnePlaceholder()
    ensures Text.Count(ContentSet, '?') == 1
  {
    assert ContentSet == "content = " + "?";
    EndsInPlaceholder("content = ");
  }

  lemma SeparatorHasNoPlaceholder()
    ensures Text.Count(", ", '?') == 0
  {
    Text.CountAbsent(", ", '?');
  }

  lemma ClauseHasOnePlaceholder(c: string)
    requires c == FilenameSet || c == ContentSet
    ensures Text.Count(c, '?') == 1
  {
    if c == FilenameSet {
      FilenameSetHasOnePlaceholder();
    } else {
      ContentSetHasOnePlaceholder();
    }
  }

  lemma {:induction false} JoinPlaceholders(sets: seq<string>)
    requires forall k :: 0 <= k < |sets| ==> sets[k] == FilenameSet || sets[k] == ContentSet
    ensures Text.Count(Text.Join(sets, ", "), '?') == |sets|
  {
    if |sets| == 1 {
      ClauseHasOnePlaceholder(sets[0]);
    } else if |sets| > 1 {
      var rest := Text.Join(sets[1..], ", ");
      assert Text.Join(sets, ", ") == sets[0] + ", " + rest;
      JoinPlaceholders(sets[1..]);
      ClauseHasOnePlaceholder(sets[0]);
      SeparatorHasNoPlaceholder();
      Text.CountConcat(sets[0] + ", ", rest, '?');
      Text.CountConcat(sets[0], ", ", '?');
    }
  }

  /** Assigns one SET clause's value to its column. */
  function SetColumn(row: FileRecord, clause: string, v: SqlValue): FileRecord {
    match v
    case TextValue(s) =>
      if clause == FilenameSet then row.(filename := s)
      else if clause == ContentSet then row.(content := s)
      else row
    case Integer(_) => row
  }

  /** Assigns each SET clause the value at its own position. */
  function Assign(row: FileRecord, sets: seq<string>, params: seq<SqlValue>): FileRecord
    decreases |sets|
  {
    if |sets| == 0 || |params| == 0 then row
    else Assign(SetColumn(row, sets[0], params[0]), sets[1..], params[1..])
  }

  /** How the storage engine runs an UPDATE built this way: the row whose id is bound to the
      final placeholder gets its SET clauses applied; when no row has that id nothing changes. */
  function ExecuteUpdate(rows: map<int, FileRecord>, st: UpdateStatement): map<int, FileRecord> {
    if |st.params| == 0 || !st.params[|st.params| - 1].Integer? then rows
    else
      var id := st.params[|st.params| - 1].n;
      if id in rows then rows[id := Assign(rows[id], st.sets, st.params[..|st.params| - 1])]
      else rows
  }

  /** A row with the given fields replaced and the others kept. */
  function Patched(row: FileRecord, fileName: Option<string>, content: Option<string>): FileRecord {
    row.(filename := fileName.GetOr(row.filename), content := content.GetOr(row.content))
  }

  lemma AssignBoth(row: FileRecord, f: string, c: string)
    ensures Assign(row, [FilenameSet, ContentSet], [TextValue(f), TextValue(c)]) == row.(filename := f, content := c)
  {
    var mid := row.(filename := f);
    assert Assign(row, [FilenameSet, ContentSet], [TextValue(f), TextValue(c)])
        == Assign(mid, [ContentSet], [TextValue(c)]);
    assert Assign(mid, [ContentSet], [TextValue(c)]) == Assign(mid.(content := c), [], []);
  }

  lemma AssignName(row: FileRecord, f: string)
    ensures Assign(row, [FilenameSet], [TextValue(f)]) == row.(filename := f)
  {
    assert Assign(row, [FilenameSet], [TextValue(f)]) == Assign(row.(filename := f), [], []);
  }

  lemma AssignContent(row: FileRecord, c: string)
    ensures Assign(row, [ContentSet], [TextValue(c)]) == row.(content := c)
  {
    assert Assign(row, [ContentSet], [TextValue(c)]) == Assign(row.(content := c), [], []);
  }

  /** Applying the SET clauses `BuildUpdate` produces to a row patches the given fields. */
  lemma AssignBuilt(row: FileRecord, id: int, fileName: Option<string>, content: Option<string>)
    requires fileName.Some? || content.Some?
    ensures var st := BuildUpdate(id, fileName, content).value;
            Assign(row, st.sets, st.params[..|st.params| - 1]) == Patched(row, fileName, content)
  {
    var st := BuildUpdate(id, fileName, content).value;
    var values := st.params[..|st.params| - 1];
    if fileName.Some? && content.Some? {
      assert st.sets == [FilenameSet, ContentSet];
      assert values == [TextValue(fileName.value), TextValue(content.value)];
      AssignBoth(row, fileName.value, content.value);
    } else if fileName.Some? {
      assert st.sets == [FilenameSet] && values == [TextValue(fileName.value)];
      AssignName(row, fileName.value);
    } else {
      assert st.sets == [ContentSet] && values == [TextValue(content.value)];
      AssignContent(row, content.value);
    }
  }

  /** Running the statement `BuildUpdate` produces sets exactly the given fields of the row with
      that id, and touches nothing when there is no such row. */
  lemma ExecuteBuiltUpdate(rows: map<int, FileRecord>, id: int, fileName: Option<string>,
                           content: Option<string>)
    requires fileName.Some? || content.Some?
    ensures var st := BuildUpdate(id, fileName, content).value;
            ExecuteUpdate(rows, st)
              == if id in rows then rows[id := Patched(rows[id], fileName, content)] else rows
  {
    if id in rows {
      AssignBuilt(rows[id], id, fileName, content);
    }
  }

  /** JavaScript truthiness of the id argument: present and not zero. */
  predicate IdGiven(id: Option<int>) {
    id.Some? && id.value != 0
  }

  /** `updateHttpFile(id, fileName, content)`: checks the id, builds the UPDATE from the given
      fields, runs it, and reads the row back, failing when there is none. */
  function UpdateHttpFile(t: Table, id: Option<int>, fileName: Option<string>, content: Option<string>)
    : (r: (Table, Result<FileRecord, FilesError>))
    ensures !IdGiven(id) ==> r == (t, Failure(IdRequired))
    ensures IdGiven(id) && fileName.None? && content.None? ==> r == (t, Failure(NoFieldsProvided))
    ensures IdGiven(id) && (fileName.Some? || content.Some?) && id.value !in t.rows ==>
              r == (t, Failure(FileNotFound))
    ensures r.1.Success? <==> IdGiven(id) && (fileName.Some? || content.Some?) && id.value in t.rows
    ensures r.1.Success? ==>
      var before := t.rows[id.value];
      var after := r.1.value;
      && after.id == before.id && after.createdAt == before.createdAt
      && after.filename == (if fileName.Some? then fileName.value else before.filename)
      && after.content == (if content.Some? then content.value else before.content)
      && r.0.rows.Keys == t.rows.Keys
      && r.0.rows[id.value] == after
      && (forall k :: k in t.rows && k != id.value ==> r.0.rows[k] == t.rows[k])
      && r.0.lastId == t.lastId
    ensures Valid(t) ==> Valid(r.0)
  {
    if !IdGiven(id) then (t, Failure(IdRequired))
    else match BuildUpdate(id.value, fileName, content)
      case None => (t, Failure(NoFieldsProvided))
      case Some(st) =>
        ExecuteBuiltUpdate(t.rows, id.value, fileName, content);
        var t' := t.(rows := ExecuteUpdate(t.rows, st));
        if id.value in t'.rows then (t', Success(t'.rows[id.value]))
        else (t', Failure(FileNotFound))
  }

  /** Repeating an update changes nothing further. */
  lemma UpdateIdempotent(t: Table, id: Option<int>, fileName: Option<string>, content: Option<string>)
    ensures var (t1, r1) := UpdateHttpFile(t, id, fileName, content);
            var (t2, r2) := UpdateHttpFile(t1, id, fileName, content);
            t2 == t1 && r2 == r1
  {
  }

  /** A file just created can be renamed: the update finds it and keeps its content. */
  lemma RenameAfterCreate(t: Table, name: string, content: Option<string>, now: int, name2: string)
    requires Valid(t) && name != ""
    ensures var c := CreateHttpFile(t, Some(name), content, now);
            && c.Success?
            && var (t1, created) := c.value;
               UpdateHttpFile(t1, Some(created.id), Some(name2), None).1
                 == Success(FileRecord(created.id, name2, content.GetOr(""), now))
  {
  }
}

/**
 * `TaskStore.save` and `TaskStore.load` with the files abstracted away: the main file is
 * a sequence of lines (absent when the file does not exist) and the `.meta` sidecar is an
 * optional string holding the counter.
 */
module Persistence {
  import opened Base
  import opened JavaText
  import opened Decimal
  import opened Records
  import opened TaskMap
  import opened TaskStore

  /** The first line `save` writes. */
  const FormatMarker: string := "# Simple To\U{2011}Do TSV v1"

  /** The second line `save` writes, naming the six columns. */
  const ColumnHeader: string := "# id\tdone\tpriority\tdue\ttitle\ttags"

  /** What `save` writes: the lines of the main file and the text of the sidecar. */
  datatype Saved = Saved(lines: seq<string>, meta: string)

  /** The line of each task, in order. */
  function EncodeAll(ts: seq<Task>, df: DateFormat): (r: seq<string>)
    ensures |r| == |ts| && forall i :: 0 <= i < |ts| ==> r[i] == ToTsv(ts[i], df)
    decreases |ts|
  {
    if ts == [] then [] else [ToTsv(ts[0], df)] + EncodeAll(ts[1..], df)
  }

  /** Lines `load` passes over without decoding: comments and blank lines. */
  predicate Skipped(line: string) {
    StartsWith(line, "#") || IsBlank(line)
  }

  /** `save`: the two header lines, one line per task in iteration order, and the counter in decimal. */
  function Save(s: Store, df: DateFormat): (r: Saved)
    ensures |r.lines| == |s.tasks| + 2
    ensures r.lines[0] == FormatMarker && r.lines[1] == ColumnHeader
    ensures forall i :: 0 <= i < |s.tasks| ==> r.lines[i + 2] == ToTsv(s.tasks[i], df)
    ensures r.meta == IntToString(s.nextId)
  {
    Saved([FormatMarker, ColumnHeader] + EncodeAll(s.tasks, df), IntToString(s.nextId))
  }

  /** Of the lines `save` writes, `load` passes over exactly the two header lines. */
  lemma SavedLinesSkipped(s: Store, df: DateFormat)
    ensures var lines := Save(s, df).lines;
      Skipped(lines[0]) && Skipped(lines[1]) && forall i :: 2 <= i < |lines| ==> !Skipped(lines[i])
  {
    var lines := Save(s, df).lines;
    assert FormatMarker[..1] == "#" && ColumnHeader[..1] == "#";
    forall i | 2 <= i < |lines| ensures !Skipped(lines[i]) {
      EncodedNotSkipped(s.tasks[i - 2], df);
    }
  }

  /** The counter written to the sidecar reads back as itself. */
  lemma SidecarRoundTrip(n: Int32)
    ensures ReadSidecar(IntToString(n)) == Some(n)
  {
    TrimIntToString(n);
    ParseIntToString(n);
  }

  /** A task's line starts with its id, so it is neither a comment nor blank. */
  lemma EncodedNotSkipped(t: Task, df: DateFormat)
    ensures !Skipped(ToTsv(t, df))
  {
    var line := ToTsv(t, df);
    var id := IntToString(t.id);
    assert line[0] == id[0];
    if id[0] == '-' {
      assert line[1] == id[1];
      assert !IsJavaWhitespace(line[1]);
    } else {
      assert !IsJavaWhitespace(line[0]);
    }
  }

  /** The sidecar's text has no surrounding whitespace to trim. */
  lemma TrimIntToString(n: Int32)
    ensures Trim(IntToString(n)) == IntToString(n)
  {
    var s := IntToString(n);
    assert !IsTrimmable(s[0]) && !IsTrimmable(s[|s| - 1]);
    TrimIdle(s);
  }

  /** The sidecar's counter, when its trimmed text parses as an `int`. */
  function ReadSidecar(meta: string): Option<Int32> {
    ParseInt(Trim(meta))
  }

  /** Why a `load` stopped: the line whose decoding threw, and what was wrong with it. */
  datatype LoadFailure = LoadFailure(line: string, error: DecodeError)

  /** The store after a `load`, and the failure that ended it early, if any. */
  datatype Loading = Loading(store: Store, failure: Option<LoadFailure>)

  /**
   * What `load` can leave in the counter: positive, above every id other than the
   * largest `int` (whose successor wraps), and either 1 or one past some id.
   */
  predicate CounterFits(s: Store) {
    && 1 <= s.nextId
    && (forall i :: 0 <= i < |s.tasks| && s.tasks[i].id < MaxInt32 ==> s.tasks[i].id < s.nextId)
    && (s.nextId == 1 || exists i :: 0 <= i < |s.tasks| && s.tasks[i].id + 1 == s.nextId)
  }

  /** One decoded task entered into the store: `put` under its id, counter raised to `id + 1`. */
  function LoadTask(s: Store, t: Task): (r: Store)
    ensures Ids(r.tasks) == Ids(s.tasks) + {t.id}
    ensures Get(r, t.id) == Some(t)
    ensures forall k :: k != t.id ==> Get(r, k) == Get(s, k)
    ensures t.id < MaxInt32 ==> r.nextId == Max(s.nextId, t.id + 1)
    ensures t.id == MaxInt32 ==> r.nextId == s.nextId
    ensures s.nextId <= r.nextId
    ensures t.id < MaxInt32 ==> t.id < r.nextId
    ensures CounterFits(s) ==> CounterFits(r)
  {
    var r := Store(Put(s.tasks, t), Max(s.nextId, Increment(t.id)));
    LookupPut(s.tasks, t, t.id);
    forall k | k != t.id ensures Get(r, k) == Get(s, k) {
      LookupPut(s.tasks, t, k);
    }
    assert |s.tasks| <= |r.tasks| && forall i :: 0 <= i < |s.tasks| ==> r.tasks[i].id == s.tasks[i].id;
    assert t.id in Ids(r.tasks);
    r
  }

  /** How `load` decodes a line: `Task.fromTsv` with the given date format. */
  function Decoder(df: DateFormat): string -> Result<Task, DecodeError> {
    line => FromTsv(line, df)
  }

  /**
   * The reading loop of `load` from state `s`: comments and blank lines are passed over,
   * every other line is decoded and entered, and the first line that fails to decode
   * ends the loop with everything entered before it kept.
   */
  function LoadLines(s: Store, lines: seq<string>, decode: string -> Result<Task, DecodeError>): (r: Loading)
    ensures s.nextId <= r.store.nextId
    ensures CounterFits(s) ==> CounterFits(r.store)
    ensures r.failure.Some? ==> r.failure.value.line in lines && !Skipped(r.failure.value.line)
    decreases |lines|
  {
    if lines == [] then Loading(s, None)
    else if Skipped(lines[0]) then LoadLines(s, lines[1..], decode)
    else
      match decode(lines[0])
      case Err(e) => Loading(s, Some(LoadFailure(lines[0], e)))
      case Ok(t) => LoadLines(LoadTask(s, t), lines[1..], decode)
  }

  /**
   * `load`: the store is cleared and the counter reset to 1; an absent main file stops
   * there. Otherwise the lines are read; when every line decoded, a readable sidecar can
   * still raise the counter. A line that fails to decode aborts before the sidecar is read.
   */
  function Load(file: Option<seq<string>>, meta: Option<string>, df: DateFormat): (r: Loading)
    ensures file.None? ==> r == Loading(Empty, None)
    ensures file.Some? ==> r.store.tasks == LoadLines(Empty, file.value, Decoder(df)).store.tasks
    ensures r.failure.Some? ==> file.Some? && r == LoadLines(Empty, file.value, Decoder(df))
    ensures file.Some? && LoadLines(Empty, file.value, Decoder(df)).failure.Some? ==> r == LoadLines(Empty, file.value, Decoder(df))
    ensures r.failure.None? ==>
              || CounterFits(r.store)
              || (meta.Some? && ReadSidecar(meta.value).Some? && r.store.nextId == ReadSidecar(meta.value).value)
    ensures 1 <= r.store.nextId
    ensures forall i :: 0 <= i < |r.store.tasks| && r.store.tasks[i].id < MaxInt32 ==> r.store.tasks[i].id < r.store.nextId
    ensures file.Some? && r.failure.None? && meta.Some? && ReadSidecar(meta.value).Some? ==>
              r.store.nextId == Max(LoadLines(Empty, file.value, Decoder(df)).store.nextId, ReadSidecar(meta.value).value)
    ensures file.Some? && (meta.None? || ReadSidecar(meta.value).None?) ==>
              r.store.nextId == LoadLines(Empty, file.value, Decoder(df)).store.nextId
  {
    match file
    case None => Loading(Empty, None)
    case Some(lines) =>
      var l := LoadLines(Empty, lines, Decoder(df));
      if l.failure.Some? then l
      else
        match meta
        case None => l
        case Some(m) =>
          match ReadSidecar(m)
          case None => l
          case Some(v) => Loading(l.store.(nextId := Max(l.store.nextId, v)), None)
  }

  /** Reading `a + b` is reading `a` and then, unless `a` already failed, reading `b` from where `a` left off. */
  lemma {:induction false} LoadLinesAppend(s: Store, a: seq<string>, b: seq<string>, decode: string -> Result<Task, DecodeError>)
    ensures var l := LoadLines(s, a, decode);
      LoadLines(s, a + b, decode) == if l.failure.Some? then l else LoadLines(l.store, b, decode)
    decreases |a|
  {
    if a == [] {
      assert a + b == b;
    } else {
      assert (a + b)[0] == a[0];
      assert (a + b)[1..] == a[1..] + b;
      if Skipped(a[0]) {
        LoadLinesAppend(s, a[1..], b, decode);
      } else if decode(a[0]).Ok? {
        LoadLinesAppend(LoadTask(s, decode(a[0]).value), a[1..], b, decode);
      }
    }
  }

  /** A comment or blank line anywhere in the file changes nothing. */
  lemma SkippedLineIgnored(s: Store, a: seq<string>, x: string, b: seq<string>, decode: string -> Result<Task, DecodeError>)
    requires Skipped(x)
    ensures LoadLines(s, a + [x] + b, decode) == LoadLines(s, a + b, decode)
  {
    LoadLinesAppend(s, a, [x] + b, decode);
    LoadLinesAppend(s, a, b, decode);
    assert a + [x] + b == a + ([x] + b);
    assert ([x] + b)[1..] == b;
  }

  /** The two header lines `save` writes are never decoded. */
  lemma HeaderIgnored(s: Store, rest: seq<string>, decode: string -> Result<Task, DecodeError>)
    ensures LoadLines(s, [FormatMarker, ColumnHeader] + rest, decode) == LoadLines(s, rest, decode)
  {
    var lines := [FormatMarker, ColumnHeader] + rest;
    assert Skipped(lines[0]) by {
      assert lines[0] == FormatMarker && FormatMarker[..1] == "#";
    }
    assert Skipped(lines[1]) by {
      assert lines[1] == ColumnHeader && ColumnHeader[..1] == "#";
    }
    assert lines[1..][1..] == rest;
  }

  /** The reading loop stops at the first line that fails to decode, keeping what came before it. */
  lemma LinesStopAtBadLine(s: Store, a: seq<string>, x: string, b: seq<string>, decode: string -> Result<Task, DecodeError>)
    requires LoadLines(s, a, decode).failure.None?
    requires !Skipped(x) && decode(x).Err?
    ensures LoadLines(s, a + [x] + b, decode) == Loading(LoadLines(s, a, decode).store, Some(LoadFailure(x, decode(x).error)))
  {
    LoadLinesAppend(s, a, [x] + b, decode);
    assert a + [x] + b == a + ([x] + b);
    assert ([x] + b)[0] == x;
  }

  /**
   * Loading is not atomic: a line that fails to decode keeps every task entered before it,
   * ignores every line after it and the sidecar, and reports the line and the error.
   */
  lemma LoadStopsAtBadLine(a: seq<string>, x: string, b: seq<string>, meta: Option<string>, df: DateFormat)
    requires LoadLines(Empty, a, Decoder(df)).failure.None?
    requires !Skipped(x) && FromTsv(x, df).Err?
    ensures Load(Some(a + [x] + b), meta, df)
         == Loading(LoadLines(Empty, a, Decoder(df)).store, Some(LoadFailure(x, FromTsv(x, df).error)))
  {
    assert Decoder(df)(x) == FromTsv(x, df);
    LinesStopAtBadLine(Empty, a, x, b, Decoder(df));
  }

  /** Two lines with the same id: the later task is kept, at the place where the id first appeared. */
  lemma LoadDuplicateIdKeepsLast(s: Store, x: string, y: string, decode: string -> Result<Task, DecodeError>)
    requires !Skipped(x) && !Skipped(y)
    requires decode(x).Ok? && decode(y).Ok?
    requires decode(x).value.id == decode(y).value.id
    requires decode(x).value.id !in Ids(s.tasks)
    ensures LoadLines(s, [x, y], decode).failure.None?
    ensures LoadLines(s, [x, y], decode).store.tasks == s.tasks + [decode(y).value]
  {
    var t, u := decode(x).value, decode(y).value;
    var s1 := LoadTask(s, t);
    var s2 := LoadTask(s1, u);
    assert s1.tasks == s.tasks + [t];
    assert t.id in Ids(s1.tasks);
    assert s2.tasks == s.tasks + [u] by {
      assert forall i :: 0 <= i < |s.tasks| ==> s1.tasks[i].id != u.id;
    }
    assert [x, y][1..] == [y] && [y][1..] == [];
    assert LoadLines(s, [x, y], decode) == LoadLines(s1, [y], decode);
    assert LoadLines(s1, [y], decode) == LoadLines(s2, [], decode);
  }

  /** A task with the largest `int` id does not move the counter: its `id + 1` wraps below it. */
  lemma LargestIdLeavesCounter(s: Store, x: string, decode: string -> Result<Task, DecodeError>)
    requires !Skipped(x) && decode(x).Ok? && decode(x).value.id == MaxInt32
    ensures LoadLines(s, [x], decode).store.nextId == s.nextId
    ensures LoadLines(s, [x], decode).store.tasks == Put(s.tasks, decode(x).value)
  {
    assert [x][1..] == [];
  }

  predicate AllEncodable(ts: seq<Task>) {
    forall i :: 0 <= i < |ts| ==> Encodable(ts[i])
  }

  /** The line of an encodable task is decoded back to that task and entered. */
  lemma LoadEncodedLine(s: Store, t: Task, rest: seq<string>, df: DateFormat)
    requires WellBehaved(df) && Encodable(t)
    ensures LoadLines(s, [ToTsv(t, df)] + rest, Decoder(df)) == LoadLines(LoadTask(s, t), rest, Decoder(df))
  {
    var lines := [ToTsv(t, df)] + rest;
    EncodedNotSkipped(t, df);
    RoundTrip(t, df);
    assert Decoder(df)(lines[0]) == Ok(t);
    assert lines[1..] == rest;
  }

  /** Entering a task under a new id appends it. */
  lemma LoadTaskAppends(s: Store, t: Task)
    requires t.id !in Ids(s.tasks)
    ensures LoadTask(s, t).tasks == s.tasks + [t]
  {
  }

  /** The first of the tasks appended to a table must bring an id the table lacks. */
  lemma FreshHead(s: Store, ts: seq<Task>)
    requires |ts| >= 1 && DistinctIds(s.tasks + ts)
    ensures ts[0].id !in Ids(s.tasks)
    ensures (s.tasks + [ts[0]]) + ts[1..] == s.tasks + ts
  {
    forall i | 0 <= i < |s.tasks| ensures s.tasks[i].id != ts[0].id {
      assert (s.tasks + ts)[i] == s.tasks[i] && (s.tasks + ts)[|s.tasks|] == ts[0];
    }
    assert (s.tasks + [ts[0]]) + ts[1..] == s.tasks + ts;
  }

  /** Reading back the lines of fresh tasks appends them in order and keeps the counter at or below `bound`. */
  lemma {:induction false} LoadEncoded(s: Store, ts: seq<Task>, bound: Int32, df: DateFormat)
    requires WellBehaved(df) && AllEncodable(ts)
    requires DistinctIds(s.tasks + ts)
    requires s.nextId <= bound && forall i :: 0 <= i < |ts| ==> ts[i].id < bound
    ensures var r := LoadLines(s, EncodeAll(ts, df), Decoder(df));
      r.failure.None? && r.store.tasks == s.tasks + ts && r.store.nextId <= bound
    decreases |ts|
  {
    if ts == [] {
      assert s.tasks + ts == s.tasks;
    } else {
      var t, rest := ts[0], ts[1..];
      var s1 := LoadTask(s, t);
      assert LoadLines(s, EncodeAll(ts, df), Decoder(df)) == LoadLines(s1, EncodeAll(rest, df), Decoder(df)) by {
        assert Encodable(t);
        LoadEncodedLine(s, t, EncodeAll(rest, df), df);
      }
      assert s1.tasks + rest == s.tasks + ts by {
        FreshHead(s, ts);
        LoadTaskAppends(s, t);
      }
      assert AllEncodable(rest) && forall i :: 0 <= i < |rest| ==> rest[i].id < bound by {
        assert forall i :: 0 <= i < |rest| ==> rest[i] == ts[i + 1];
      }
      LoadEncoded(s1, rest, bound, df);
    }
  }

  /** A file whose every line decodes, with a readable sidecar: the counter is the larger of the two. */
  lemma LoadWithSidecar(lines: seq<string>, meta: string, df: DateFormat)
    requires LoadLines(Empty, lines, Decoder(df)).failure.None? && ReadSidecar(meta).Some?
    ensures var l := LoadLines(Empty, lines, Decoder(df)).store;
      Load(Some(lines), Some(meta), df) == Loading(l.(nextId := Max(l.nextId, ReadSidecar(meta).value)), None)
  {
  }

  /** Reading encoded tasks into an empty store gives exactly those tasks. */
  lemma LoadEncodedFresh(ts: TaskTable, bound: Int32, df: DateFormat)
    requires WellBehaved(df) && AllEncodable(ts)
    requires 1 <= bound && forall i :: 0 <= i < |ts| ==> ts[i].id < bound
    ensures var r := LoadLines(Empty, EncodeAll(ts, df), Decoder(df));
      r.failure.None? && r.store.tasks == ts && r.store.nextId <= bound
  {
    assert Empty.tasks + ts == ts;
    LoadEncoded(Empty, ts, bound, df);
  }

  /** `load` reads past the two header lines `save` writes. */
  lemma SavedHeaderIgnored(s: Store, df: DateFormat)
    ensures LoadLines(Empty, Save(s, df).lines, Decoder(df)) == LoadLines(Empty, EncodeAll(s.tasks, df), Decoder(df))
  {
    HeaderIgnored(Empty, EncodeAll(s.tasks, df), Decoder(df));
  }

  /** The lines `save` writes read back as the store's tasks, with the counter at or below the saved one. */
  lemma LoadSavedLines(s: Store, df: DateFormat)
    requires WellBehaved(df) && AllEncodable(s.tasks) && CounterAhead(s)
    ensures var l := LoadLines(Empty, Save(s, df).lines, Decoder(df));
      l.failure.None? && l.store.tasks == s.tasks && l.store.nextId <= s.nextId
  {
    SavedHeaderIgnored(s, df);
    LoadEncodedFresh(s.tasks, s.nextId, df);
  }

  /**
   * Saving and loading gives the store back: the same tasks in the same order and the
   * same counter, whenever every title is present and every tag is non-empty and comma-free.
   */
  lemma SaveLoadRoundTrip(s: Store, df: DateFormat)
    requires WellBehaved(df) && AllEncodable(s.tasks) && CounterAhead(s)
    ensures var saved := Save(s, df);
      Load(Some(saved.lines), Some(saved.meta), df) == Loading(s, None)
  {
    var saved := Save(s, df);
    LoadSavedLines(s, df);
    SidecarRoundTrip(s.nextId);
    LoadWithSidecar(saved.lines, saved.meta, df);
  }

  /**
   * The sidecar keeps a deleted id retired across a restart: after deleting, saving and
   * loading, the counter is where it was, so the next addition gets a fresh id.
   */
  lemma SidecarKeepsDeletedIdRetired(s: Store, id: Int32, df: DateFormat)
    requires WellBehaved(df) && AllEncodable(s.tasks) && CounterAhead(s)
    requires Get(s, id).Some?
    ensures var d := Delete(s, id).store;
      var saved := Save(d, df);
      var l := Load(Some(saved.lines), Some(saved.meta), df);
      l.failure.None? && l.store.nextId == s.nextId && id < l.store.nextId
  {
    var d := Delete(s, id).store;
    assert forall t :: t in d.tasks ==> t in s.tasks;
    assert AllEncodable(d.tasks) by {
      forall i | 0 <= i < |d.tasks| ensures Encodable(d.tasks[i]) {
        assert d.tasks[i] in s.tasks;
      }
    }
    SaveLoadRoundTrip(d, df);
  }

  /** Deleting id 2 from a store holding ids 1 and 2 leaves the first task alone, counter untouched. */
  lemma DeleteSecondOfTwo(t: Task)
    ensures Delete(Store([t.(id := 1), t.(id := 2)], 3), 2).store == Store([t.(id := 1)], 3)
  {
    var s := Store([t.(id := 1), t.(id := 2)], 3);
    var keep := (x: Task) => x.id != 2;
    assert s.tasks[1..] == [t.(id := 2)] && s.tasks[1..][1..] == [];
    assert Filter(s.tasks, keep) == [t.(id := 1)];
  }

  /**
   * Without the sidecar the counter is rebuilt from the ids alone: delete the task with
   * the largest id, save, lose the sidecar and load, and the next addition reissues that id.
   */
  lemma WithoutSidecarLargestIdReissued(t: Task, df: DateFormat)
    requires WellBehaved(df) && Encodable(t)
    ensures var s := Store([t.(id := 1), t.(id := 2)], 3);
      var saved := Save(Delete(s, 2).store, df);
      var l := Load(Some(saved.lines), None, df);
      l.failure.None? && Add(l.store, None, None, None, None).task.id == 2
  {
    var d := Store([t.(id := 1)], 3);
    DeleteSecondOfTwo(t);
    assert AllEncodable(d.tasks);
    LoadSavedLines(d, df);
    var lines := Save(d, df).lines;
    LoadWithoutSidecar(lines, df);
    OnlyIdOne(LoadLines(Empty, lines, Decoder(df)).store);
  }

  /** A file whose every line decodes, without a sidecar: the counter is what the ids give. */
  lemma LoadWithoutSidecar(lines: seq<string>, df: DateFormat)
    requires LoadLines(Empty, lines, Decoder(df)).failure.None?
    ensures Load(Some(lines), None, df) == LoadLines(Empty, lines, Decoder(df))
  {
  }

  /** The counter `load` rebuilds over a single task with id 1 is 2. */
  lemma OnlyIdOne(s: Store)
    requires CounterFits(s) && |s.tasks| == 1 && s.tasks[0].id == 1
    ensures s.nextId == 2
  {
  }
}

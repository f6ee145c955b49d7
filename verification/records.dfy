/**
 * A task record and its one-line encoding (`Task.toTsv` / `Task.fromTsv`): six
 * tab-separated fields `id, done, priority, due, title, tags`, the last two escaped.
 */
module Records {
  import opened Base
  import opened JavaText
  import opened Decimal
  import opened Escaping
  import opened TsvSplit

  datatype Priority = LOW | MEDIUM | HIGH

  /** `Priority.name()`. */
  function PriorityName(p: Priority): string {
    match p
    case LOW => "LOW"
    case MEDIUM => "MEDIUM"
    case HIGH => "HIGH"
  }

  /** `Priority.valueOf(s)`: the constant whose name is exactly `s`; any other text is an error. */
  function PriorityValueOf(s: string): (r: Option<Priority>)
    ensures r.Some? ==> PriorityName(r.value) == s
    ensures forall p :: PriorityName(p) == s ==> r == Some(p)
  {
    if s == "LOW" then Some(LOW)
    else if s == "MEDIUM" then Some(MEDIUM)
    else if s == "HIGH" then Some(HIGH)
    else None
  }

  /** A calendar date, as `LocalDate` holds it. */
  datatype Date = Date(year: int, month: int, day: int)

  /**
   * The date formatter `yyyy-MM-dd`, kept abstract: `format` renders a date and
   * `parse` reads one back, `None` standing for a `DateTimeParseException`.
   */
  datatype DateFormat = DateFormat(format: Date -> string, parse: string -> Option<Date>)

  predicate IsDateChar(c: char) {
    IsDigit(c) || c == '-' || c == '+'
  }

  /** What the pattern `yyyy-MM-dd` can print: digits, signs and dashes, never nothing. */
  predicate DateText(s: string) {
    |s| >= 1 && forall i :: 0 <= i < |s| ==> IsDateChar(s[i])
  }

  /** The assumption made of the date formatter: its text is date text and parses back to the same date. */
  ghost predicate WellBehaved(df: DateFormat) {
    forall d :: DateText(df.format(d)) && df.parse(df.format(d)) == Some(d)
  }

  /**
   * One task. `title` is `None` where the Java field is null; `tags` is the task's
   * insertion-ordered set of labels.
   */
  datatype Task = Task(
    id: Int32,
    title: Option<string>,
    due: Option<Date>,
    priority: Priority,
    done: bool,
    tags: OrderedSet)

  /** Why a line did not decode, with the offending field. */
  datatype DecodeError =
    | BadId(idText: string)
    | BadPriority(priorityText: string)
    | BadDate(dateText: string)

  function DoneFlag(done: bool): string {
    if done then "1" else "0"
  }

  function DueText(due: Option<Date>, df: DateFormat): string {
    match due
    case None => []
    case Some(d) => df.format(d)
  }

  /** The six fields of a task's line, in order, as they stand in the line. */
  function LineFields(t: Task, df: DateFormat): seq<string> {
    [IntToString(t.id), DoneFlag(t.done), PriorityName(t.priority), DueText(t.due, df),
     Escape(t.title), Escape(Some(Join(',', t.tags)))]
  }

  /** `Task.toTsv`: the six fields joined by tabs; with a well-behaved formatter the line holds no newline. */
  function ToTsv(t: Task, df: DateFormat): (r: string)
    ensures StartsWith(r, IntToString(t.id))
    ensures WellBehaved(df) ==> '\n' !in r
  {
    var fs := LineFields(t, df);
    JoinStartsWithFirst('\t', fs);
    assert WellBehaved(df) ==> '\n' !in Join('\t', fs) by {
      if WellBehaved(df) {
        if t.due.Some? {
          assert DateText(df.format(t.due.value));
        }
        assert forall i :: 0 <= i < |fs| ==> '\n' !in fs[i];
        JoinExcludes('\t', fs, '\n');
      }
    }
    Join('\t', fs)
  }

  /** The tags read back from the unescaped tags field: split at commas, duplicates collapsed. */
  function TagsOf(text: string): OrderedSet {
    if text == [] then [] else AddAll([], Split(text, ','))
  }

  /**
   * `Task.fromTsv`: the line is split into at least six fields; the id must parse as an
   * `int`, the priority must be a constant's exact name, and a non-empty due field must
   * parse as a date, checked in that order. The title and tags fields are unescaped.
   */
  function FromTsv(line: string, df: DateFormat): (r: Result<Task, DecodeError>)
    ensures var f := SplitTsv(line, 6);
      && (ParseInt(f[0]).None? ==> r == Err(BadId(f[0])))
      && (ParseInt(f[0]).Some? && PriorityValueOf(f[2]).None? ==> r == Err(BadPriority(f[2])))
      && (ParseInt(f[0]).Some? && PriorityValueOf(f[2]).Some? && f[3] != [] && df.parse(f[3]).None? ==> r == Err(BadDate(f[3])))
      && (r.Ok? <==> ParseInt(f[0]).Some? && PriorityValueOf(f[2]).Some? && (f[3] == [] || df.parse(f[3]).Some?))
      && (r.Ok? ==> && Some(r.value.id) == ParseInt(f[0])
                    && PriorityName(r.value.priority) == f[2]
                    && (r.value.done <==> f[1] == "1")
                    && (r.value.due.None? <==> f[3] == [])
                    && (r.value.due.Some? ==> df.parse(f[3]) == r.value.due)
                    && r.value.title == Some(Unescape(f[4]))
                    && forall tag :: tag in r.value.tags ==> tag in Split(Unescape(f[5]), ','))
  {
    var f := SplitTsv(line, 6);
    match ParseInt(f[0])
    case None => Err(BadId(f[0]))
    case Some(id) =>
      match PriorityValueOf(f[2])
      case None => Err(BadPriority(f[2]))
      case Some(p) =>
        if f[3] != [] && df.parse(f[3]).None? then Err(BadDate(f[3]))
        else
          var due := if f[3] == [] then None else df.parse(f[3]);
          Ok(Task(id, Some(Unescape(f[4])), due, p, f[1] == "1", TagsOf(Unescape(f[5]))))
  }

  lemma PlainFields(t: Task, df: DateFormat)
    requires WellBehaved(df)
    ensures forall i :: 0 <= i < 6 ==> EscapedField(LineFields(t, df)[i])
  {
    var fs := LineFields(t, df);
    var id := IntToString(t.id);
    assert '\\' !in id && '\t' !in id by {
      assert forall i :: 0 <= i < |id| ==> id[i] == '-' || IsDigit(id[i]);
    }
    PlainTextIsEscapedField(id);
    PlainTextIsEscapedField(DoneFlag(t.done));
    PlainTextIsEscapedField(PriorityName(t.priority));
    var due := DueText(t.due, df);
    assert '\\' !in due && '\t' !in due by {
      if t.due.Some? {
        assert DateText(df.format(t.due.value));
      }
    }
    PlainTextIsEscapedField(due);
  }

  lemma JoinSix(a: string, b: string, c: string, d: string, e: string, f: string)
    ensures Join('\t', [a, b, c, d, e, f]) == a + "\t" + b + "\t" + c + "\t" + d + "\t" + e + "\t" + f
  {
    var fs := [a, b, c, d, e, f];
    assert fs[1..] == [b, c, d, e, f];
    assert fs[1..][1..] == [c, d, e, f];
    assert fs[1..][1..][1..] == [d, e, f];
    assert fs[1..][1..][1..][1..] == [e, f];
    assert fs[1..][1..][1..][1..][1..] == [f];
    assert Join('\t', [e, f]) == e + "\t" + f;
    assert Join('\t', [d, e, f]) == d + "\t" + (e + "\t" + f);
    assert Join('\t', [c, d, e, f]) == c + "\t" + (d + "\t" + (e + "\t" + f));
    assert Join('\t', [b, c, d, e, f]) == b + "\t" + (c + "\t" + (d + "\t" + (e + "\t" + f)));
    assert Join('\t', fs) == a + "\t" + (b + "\t" + (c + "\t" + (d + "\t" + (e + "\t" + f))));
  }

  /** The line is `toTsv`'s concatenation of the six fields with a tab between neighbours. */
  lemma ToTsvConcat(t: Task, df: DateFormat)
    ensures ToTsv(t, df) == IntToString(t.id) + "\t" + DoneFlag(t.done) + "\t" + PriorityName(t.priority) + "\t"
      + DueText(t.due, df) + "\t" + Escape(t.title) + "\t" + Escape(Some(Join(',', t.tags)))
  {
    var fs := LineFields(t, df);
    JoinSix(fs[0], fs[1], fs[2], fs[3], fs[4], fs[5]);
    assert fs == [fs[0], fs[1], fs[2], fs[3], fs[4], fs[5]];
  }

  /**
   * Splitting a task's line gives exactly its six fields: the title and tags fields are
   * the escaped texts verbatim, whatever tabs, newlines or backslashes they hold.
   */
  lemma ToTsvFields(t: Task, df: DateFormat)
    requires WellBehaved(df)
    ensures SplitTsv(ToTsv(t, df), 6) == LineFields(t, df)
    ensures SplitTsv(ToTsv(t, df), 6)[4] == Escape(t.title)
    ensures SplitTsv(ToTsv(t, df), 6)[5] == Escape(Some(Join(',', t.tags)))
  {
    var fs := LineFields(t, df);
    PlainFields(t, df);
    FieldsOfJoin(fs);
  }

  /** Tags survive the comma join and split when each is non-empty and comma-free. */
  lemma TagsRoundTrip(tags: OrderedSet)
    requires forall i :: 0 <= i < |tags| ==> tags[i] != [] && ',' !in tags[i]
    ensures TagsOf(Join(',', tags)) == tags
  {
    if |tags| >= 1 {
      assert |Join(',', tags)| >= |tags[0]|;
      SplitJoin(tags, ',');
      assert [] + tags == tags;
      AddAllDistinct([], tags);
    }
  }

  /** A task whose line decodes back to the same task: a title is present and every tag is non-empty and comma-free. */
  predicate Encodable(t: Task) {
    && t.title.Some?
    && forall i :: 0 <= i < |t.tags| ==> t.tags[i] != [] && ',' !in t.tags[i]
  }

  /** Decoding a task's line gives the task back. */
  lemma RoundTrip(t: Task, df: DateFormat)
    requires WellBehaved(df)
    requires Encodable(t)
    ensures FromTsv(ToTsv(t, df), df) == Ok(t)
  {
    var line := ToTsv(t, df);
    ToTsvFields(t, df);
    var f := SplitTsv(line, 6);
    assert f == LineFields(t, df);
    ParseIntToString(t.id);
    assert ParseInt(f[0]) == Some(t.id);
    assert PriorityValueOf(f[2]) == Some(t.priority);
    var due := if f[3] == [] then None else df.parse(f[3]);
    assert due == t.due && (f[3] == [] || df.parse(f[3]).Some?) by {
      if t.due.Some? {
        assert DateText(df.format(t.due.value));
      }
    }
    UnescapeEscape(t.title.value);
    assert Some(Unescape(f[4])) == t.title;
    UnescapeEscape(Join(',', t.tags));
    TagsRoundTrip(t.tags);
    assert TagsOf(Unescape(f[5])) == t.tags;
    assert (f[1] == "1") == t.done;
  }

  /** A null title is written as an empty field and so reads back as the empty string. */
  lemma NullTitleReadsEmpty(t: Task, df: DateFormat)
    requires WellBehaved(df)
    requires t.title.None?
    ensures FromTsv(ToTsv(t, df), df).Ok?
    ensures FromTsv(ToTsv(t, df), df).value.title == Some([])
  {
    ToTsvFields(t, df);
    ParseIntToString(t.id);
    UnescapeEscape([]);
  }
}

/**
 * The command handlers that change the store: `add`, `done`/`undone`, `edit`, `del`
 * and `clear`. Each takes the text typed after the command word and gives the store
 * afterwards together with the error the handler threw, if any; the command loop
 * reports the error and carries on with the store as the handler left it.
 */
module Commands {
  import opened Base
  import opened JavaText
  import opened Records
  import opened TaskMap
  import opened TaskStore
  import opened Persistence
  import opened CommandParsing

  /** Why a command was refused. */
  datatype CommandError =
    | TitleRequired
    | NotNumeric
    | NoTask(id: Int32)
    | EditUsage
    | BadDueDate(text: string)

  /** The store a handler leaves behind and the error it threw, if any. */
  datatype Outcome = Outcome(store: Store, error: Option<CommandError>)

  /**
   * A store that saving and loading give back unchanged: every task encodable and the
   * counter ahead of every id.
   */
  predicate Restorable(s: Store) {
    AllEncodable(s.tasks) && CounterAhead(s)
  }

  /** `flags.get(key)`. */
  function FlagArg(flags: map<string, string>, key: string): (r: Option<string>)
    ensures r.Some? <==> key in flags
    ensures r.Some? ==> r.value == flags[key]
  {
    if key in flags then Some(flags[key]) else None
  }

  /** The texts `parseDate` reads as "no due date": none at all, blank, or `none` in any case. */
  predicate NoDateText(s: Option<string>) {
    s.None? || IsBlank(s.value) || EqualsIgnoreCase(s.value, "none")
  }

  /** `parseDate(s)`: the trimmed text read by the date formatter; its failure is an error. */
  function ParseDate(s: Option<string>, df: DateFormat): (r: Result<Option<Date>, CommandError>)
    ensures NoDateText(s) ==> r == Ok(None)
    ensures !NoDateText(s) ==> (r.Ok? <==> df.parse(Trim(s.value)).Some?)
    ensures !NoDateText(s) && r.Ok? ==> r.value.Some? && r.value == df.parse(Trim(s.value))
    ensures r.Err? ==> s.Some? && r.error == BadDueDate(Trim(s.value))
  {
    if NoDateText(s) then Ok(None)
    else
      match df.parse(Trim(s.value))
      case None => Err(BadDueDate(Trim(s.value)))
      case Some(d) => Ok(Some(d))
  }

  /** A date typed as the formatter prints it is read back as that date. */
  lemma ParseDateFormatted(d: Date, df: DateFormat)
    requires WellBehaved(df)
    ensures ParseDate(Some(df.format(d)), df) == Ok(Some(d))
  {
    var text := df.format(d);
    assert DateText(text);
    assert !IsJavaWhitespace(text[0]);
    assert AsciiLower(text)[0] != 'n';
    assert !EqualsIgnoreCase(text, "none") by {
      assert AsciiLower("none")[0] == 'n';
    }
    TrimIdle(text);
  }

  /**
   * `add <title> [/due date] [/p priority] [/tags list]`: the text before the first
   * flag is the title and must not be blank; the due date must parse. The new task
   * is added with the trimmed title, the parsed priority and the parsed tags.
   */
  function AddTask(s: Store, args: string, df: DateFormat): (r: Outcome)
    ensures var title := LeadingText(Some(args));
      var flags := ParseFlags(Some(args));
      var due := ParseDate(FlagArg(flags, "/due"), df);
      && (IsBlank(title) ==> r == Outcome(s, Some(TitleRequired)))
      && (!IsBlank(title) && due.Err? ==> r == Outcome(s, Some(due.error)))
      && (r.error.None? <==> !IsBlank(title) && due.Ok?)
      && (r.error.None? ==>
            r.store == Add(s, Some(Trim(title)), due.value, Some(ParsePriority(FlagArg(flags, "/p"))),
                           Some(ParseTags(FlagArg(flags, "/tags")))).store)
    ensures Restorable(s) && s.nextId < MaxInt32 ==> Restorable(r.store) && s.nextId <= r.store.nextId <= s.nextId + 1
  {
    var flags := ParseFlags(Some(args));
    var title := LeadingText(Some(args));
    if IsBlank(title) then Outcome(s, Some(TitleRequired))
    else
      match ParseDate(FlagArg(flags, "/due"), df)
      case Err(e) => Outcome(s, Some(e))
      case Ok(due) =>
        var p := ParsePriority(FlagArg(flags, "/p"));
        var tags := ParseTags(FlagArg(flags, "/tags"));
        AddRestorable(s, Trim(title), due, p, tags);
        Outcome(Add(s, Some(Trim(title)), due, Some(p), Some(tags)).store, None)
  }

  /** Adding a titled task with parsed tags keeps a store restorable while the counter has room. */
  lemma AddRestorable(s: Store, title: string, due: Option<Date>, p: Priority, tags: OrderedSet)
    requires AllTags(tags)
    ensures Restorable(s) && s.nextId < MaxInt32 ==>
              var r := Add(s, Some(title), due, Some(p), Some(tags)).store;
              Restorable(r) && r.nextId == s.nextId + 1
  {
    var a := Add(s, Some(title), due, Some(p), Some(tags));
    if Restorable(s) && s.nextId < MaxInt32 {
      assert Encodable(a.task);
      EncodableByGet(s, a.store);
    }
  }

  /** `done <id>` and `undone <id>`: sets the completion flag of the task with that id. */
  function ToggleDone(s: Store, arg: string, to: bool): (r: Outcome)
    ensures ParseId(arg).None? ==> r == Outcome(s, Some(NotNumeric))
    ensures ParseId(arg).Some? && Get(s, ParseId(arg).value).None? ==>
              r == Outcome(s, Some(NoTask(ParseId(arg).value)))
    ensures r.error.None? ==> ParseId(arg).Some? && Get(s, ParseId(arg).value).Some?
    ensures r.error.None? ==>
              var id := ParseId(arg).value;
              && Get(r.store, id) == Some(Get(s, id).value.(done := to))
              && (forall k :: k != id ==> Get(r.store, k) == Get(s, k))
              && r.store.nextId == s.nextId
    ensures r.store.nextId == s.nextId
    ensures Restorable(s) ==> Restorable(r.store)
  {
    match ParseId(arg)
    case None => Outcome(s, Some(NotNumeric))
    case Some(id) =>
      var p := Patch(None, None, None, Some(to), None);
      match Update(s, id, p)
      case Err(_) => Outcome(s, Some(NoTask(id)))
      case Ok(s') =>
        UpdateEncodable(s, id, p);
        Outcome(s', None)
  }

  /** `del <id>`: removes the task with that id; an unknown id is an error. */
  function DeleteTask(s: Store, arg: string): (r: Outcome)
    ensures ParseId(arg).None? ==> r == Outcome(s, Some(NotNumeric))
    ensures ParseId(arg).Some? ==>
              var id := ParseId(arg).value;
              && (r.error.None? <==> Get(s, id).Some?)
              && (r.error.Some? ==> r.error == Some(NoTask(id)) && r.store == s)
              && Get(r.store, id) == None
              && (forall k :: k != id ==> Get(r.store, k) == Get(s, k))
              && r.store.nextId == s.nextId
    ensures r.store.nextId == s.nextId
    ensures Restorable(s) ==> Restorable(r.store)
  {
    match ParseId(arg)
    case None => Outcome(s, Some(NotNumeric))
    case Some(id) =>
      var d := Delete(s, id);
      EncodableByGet(s, d.store);
      if d.removed then Outcome(d.store, None) else Outcome(s, Some(NoTask(id)))
  }

  datatype Cleared = Cleared(store: Store, removed: int)

  /** `clear`: removes the completed tasks and reports how many went. */
  function ClearDone(s: Store): (r: Cleared)
    ensures r.store == ClearCompleted(s)
    ensures r.removed == Count(s.tasks, IsDone)
    ensures r.removed == |s.tasks| - |r.store.tasks|
    ensures Restorable(s) ==> Restorable(r.store)
  {
    var after := ClearCompleted(s);
    EncodableByGet(s, after);
    IdsCount(s.tasks);
    IdsCount(after.tasks);
    Cleared(after, Size(s) - Size(after))
  }

  /** The length of the leading run of non-`\s` characters. */
  function WordLength(s: string): (n: nat)
    ensures n <= |s|
    ensures forall i :: 0 <= i < n ==> !IsRegexSpace(s[i])
    ensures n < |s| ==> IsRegexSpace(s[n])
    decreases |s|
  {
    if s == [] || IsRegexSpace(s[0]) then 0 else 1 + WordLength(s[1..])
  }

  /** Drops the leading run of `\s` characters. */
  function DropSpaces(s: string): (r: string)
    ensures |r| <= |s| && r == s[|s| - |r|..]
    ensures forall i :: 0 <= i < |s| - |r| ==> IsRegexSpace(s[i])
    ensures r == [] || !IsRegexSpace(r[0])
    decreases |s|
  {
    if s != [] && IsRegexSpace(s[0]) then DropSpaces(s[1..]) else s
  }

  /**
   * `s.split("\\s+", 2)` for a text that does not start with `\s` (as a trimmed text
   * never does): the first word, and everything after the whitespace that follows it,
   * which is empty when there is no such whitespace.
   */
  function SplitFirstWord(s: string): (r: (string, string))
  {
    var n := WordLength(s);
    (s[..n], DropSpaces(s[n..]))
  }

  /** A word, a run of whitespace and the rest split back into the word and the rest. */
  lemma SplitFirstWordOf(w: string, gap: string, rest: string)
    requires forall i :: 0 <= i < |w| ==> !IsRegexSpace(w[i])
    requires gap != [] && forall i :: 0 <= i < |gap| ==> IsRegexSpace(gap[i])
    requires rest == [] || !IsRegexSpace(rest[0])
    ensures SplitFirstWord(w + gap + rest) == (w, rest)
  {
    var s := w + gap + rest;
    WordLengthOf(w, gap + rest);
    assert s == w + (gap + rest);
    assert s[|w|..] == gap + rest;
    DropSpacesOf(gap, rest);
  }

  lemma {:induction false} WordLengthOf(w: string, t: string)
    requires forall i :: 0 <= i < |w| ==> !IsRegexSpace(w[i])
    requires t == [] || IsRegexSpace(t[0])
    ensures WordLength(w + t) == |w|
    decreases |w|
  {
    if w == [] {
      assert w + t == t;
    } else {
      assert (w + t)[1..] == w[1..] + t;
      assert forall i :: 0 <= i < |w| - 1 ==> w[1..][i] == w[i + 1];
      WordLengthOf(w[1..], t);
    }
  }

  lemma {:induction false} DropSpacesOf(gap: string, rest: string)
    requires forall i :: 0 <= i < |gap| ==> IsRegexSpace(gap[i])
    requires rest == [] || !IsRegexSpace(rest[0])
    ensures DropSpaces(gap + rest) == rest
    decreases |gap|
  {
    if gap == [] {
      assert gap + rest == rest;
    } else {
      assert (gap + rest)[1..] == gap[1..] + rest;
      assert forall i :: 0 <= i < |gap| - 1 ==> gap[1..][i] == gap[i + 1];
      DropSpacesOf(gap[1..], rest);
    }
  }

  /**
   * The changes an `edit` applies, in the handler's order: the title, then the due date,
   * then the priority, then the tags. A due date that does not parse throws after the
   * title has been set, so the new title stays and the later changes are not made.
   */
  function EditFlags(s: Store, id: Int32, flags: map<string, string>, df: DateFormat): (r: Outcome)
    requires Get(s, id).Some?
    ensures var title := if "/t" in flags then Some(Trim(flags["/t"])) else None;
      var due := if "/due" in flags then ParseDate(Some(flags["/due"]), df) else Ok(Get(s, id).value.due);
      && (due.Err? ==> r == Outcome(Update(s, id, Patch(title, None, None, None, None)).value, Some(due.error)))
      && (due.Ok? ==>
            var priority := if "/p" in flags then Some(ParsePriority(Some(flags["/p"]))) else None;
            var tags := if "/tags" in flags then Some(ParseTags(Some(flags["/tags"]))) else None;
            r == Outcome(Update(s, id, Patch(title, Some(due.value), priority, None, tags)).value, None))
    ensures r.store.nextId == s.nextId
    ensures Get(r.store, id).Some? && forall k :: k != id ==> Get(r.store, k) == Get(s, k)
    ensures Restorable(s) ==> Restorable(r.store)
  {
    var title := if "/t" in flags then Some(Trim(flags["/t"])) else None;
    var due := if "/due" in flags then ParseDate(Some(flags["/due"]), df) else Ok(Get(s, id).value.due);
    match due
    case Err(e) =>
      var p := Patch(title, None, None, None, None);
      UpdateEncodable(s, id, p);
      Outcome(Update(s, id, p).value, Some(e))
    case Ok(d) =>
      var priority := if "/p" in flags then Some(ParsePriority(Some(flags["/p"]))) else None;
      var tags := if "/tags" in flags then Some(ParseTags(Some(flags["/tags"]))) else None;
      var p := Patch(title, Some(d), priority, None, tags);
      UpdateEncodable(s, id, p);
      Outcome(Update(s, id, p).value, None)
  }

  /**
   * `edit` once its text is split: `head` must be a word that is not blank and reads as
   * the id of a task; `rest` holds the flags. A refused edit leaves the store as it was.
   * On a known id only that task changes: the title first, and then, unless the due date
   * does not parse, the due date, the priority and the tags.
   */
  function EditParts(s: Store, head: string, rest: string, df: DateFormat): (r: Outcome)
    ensures IsBlank(head) ==> r == Outcome(s, Some(EditUsage))
    ensures !IsBlank(head) && ParseId(head).None? ==> r == Outcome(s, Some(NotNumeric))
    ensures !IsBlank(head) && ParseId(head).Some? && Get(s, ParseId(head).value).None? ==>
              r == Outcome(s, Some(NoTask(ParseId(head).value)))
    ensures !IsBlank(head) && ParseId(head).Some? && Get(s, ParseId(head).value).Some? ==>
              var id := ParseId(head).value;
              var t := Get(s, id).value;
              var flags := ParseFlags(Some(rest));
              var title := if "/t" in flags then Some(Trim(flags["/t"])) else t.title;
              var due := if "/due" in flags then ParseDate(Some(flags["/due"]), df) else Ok(t.due);
              var priority := if "/p" in flags then ParsePriority(Some(flags["/p"])) else t.priority;
              var tags := if "/tags" in flags then ParseTags(Some(flags["/tags"])) else t.tags;
              && (due.Err? ==> r.error == Some(due.error) && Get(r.store, id) == Some(t.(title := title)))
              && (due.Ok? ==>
                    && r.error.None?
                    && Get(r.store, id) == Some(t.(title := title, due := due.value, priority := priority, tags := tags)))
              && (forall k :: k != id ==> Get(r.store, k) == Get(s, k))
              && r.store.nextId == s.nextId
  {
    if IsBlank(head) then Outcome(s, Some(EditUsage))
    else
      match ParseId(head)
      case None => Outcome(s, Some(NotNumeric))
      case Some(id) =>
        if Get(s, id).None? then Outcome(s, Some(NoTask(id)))
        else EditFlags(s, id, ParseFlags(Some(rest)), df)
  }

  /**
   * `edit <id> [/t title] [/due date|none] [/p priority] [/tags list|none]`: the first
   * word of the trimmed text is the id, the rest holds the flags.
   */
  function EditTask(s: Store, args: string, df: DateFormat): (r: Outcome)
  {
    var parts := SplitFirstWord(Trim(args));
    EditParts(s, parts.0, parts.1, df)
  }

  /** An `edit`, accepted or refused, keeps the counter and the set of ids, and a restorable store restorable. */
  lemma EditKeeps(s: Store, head: string, rest: string, df: DateFormat)
    ensures var r := EditParts(s, head, rest, df).store;
      && r.nextId == s.nextId
      && (forall k :: Get(r, k).Some? <==> Get(s, k).Some?)
      && (Restorable(s) ==> Restorable(r))
  {
    if !IsBlank(head) && ParseId(head).Some? && Get(s, ParseId(head).value).Some? {
      var id := ParseId(head).value;
      var r := EditFlags(s, id, ParseFlags(Some(rest)), df).store;
      forall k ensures Get(r, k).Some? <==> Get(s, k).Some? {
        if k != id {
          assert Get(r, k) == Get(s, k);
        }
      }
    }
  }

  /** A command as typed after its command word. */
  datatype Command =
    | AddCmd(args: string)
    | DoneCmd(arg: string)
    | UndoneCmd(arg: string)
    | EditCmd(args: string)
    | DeleteCmd(arg: string)
    | ClearCmd

  function Execute(s: Store, c: Command, df: DateFormat): Outcome {
    match c
    case AddCmd(args) => AddTask(s, args, df)
    case DoneCmd(arg) => ToggleDone(s, arg, true)
    case UndoneCmd(arg) => ToggleDone(s, arg, false)
    case EditCmd(args) => EditTask(s, args, df)
    case DeleteCmd(arg) => DeleteTask(s, arg)
    case ClearCmd => Outcome(ClearDone(s).store, None)
  }

  /** The store after a session of commands; a refused command leaves the store as its handler left it. */
  function Session(s: Store, cmds: seq<Command>, df: DateFormat): Store
    decreases |cmds|
  {
    if cmds == [] then s else Session(Execute(s, cmds[0], df).store, cmds[1..], df)
  }

  /** A store whose every task is either one it had before or an encodable one holds only encodable tasks. */
  lemma EncodableByGet(s: Store, r: Store)
    requires forall k :: Get(r, k).Some? ==> Get(r, k) == Get(s, k) || Encodable(Get(r, k).value)
    ensures AllEncodable(s.tasks) ==> AllEncodable(r.tasks)
  {
    forall i | AllEncodable(s.tasks) && 0 <= i < |r.tasks| ensures Encodable(r.tasks[i]) {
      var t := r.tasks[i];
      LookupAt(r.tasks, i);
      assert Get(r, t.id) == Some(t);
      if Get(s, t.id) == Some(t) {
        var j :| 0 <= j < |s.tasks| && s.tasks[j] == t;
      }
    }
  }

  /** An edit that sets a title and replaces the tags only by parsed ones keeps every task encodable. */
  lemma UpdateEncodable(s: Store, id: Int32, p: Patch)
    requires Update(s, id, p).Ok?
    requires p.tags.Some? ==> AllTags(p.tags.value)
    ensures AllEncodable(s.tasks) ==> AllEncodable(Update(s, id, p).value.tasks)
  {
    var t := Get(s, id).value;
    var j :| 0 <= j < |s.tasks| && s.tasks[j] == t;
    if AllEncodable(s.tasks) {
      assert Encodable(Patched(t, p));
      EncodableByGet(s, Update(s, id, p).value);
    }
  }

  /** One command keeps a store restorable and moves the counter up by at most one, provided the counter has room. */
  lemma ExecuteKeeps(s: Store, c: Command, df: DateFormat)
    requires Restorable(s) && s.nextId < MaxInt32
    ensures var r := Execute(s, c, df).store;
      Restorable(r) && s.nextId <= r.nextId <= s.nextId + 1
  {
    if c.EditCmd? {
      var parts := SplitFirstWord(Trim(c.args));
      EditKeeps(s, parts.0, parts.1, df);
    }
  }

  /**
   * Over a session that does not run the counter out of the `int` range, the store
   * stays restorable.
   */
  lemma {:induction false} SessionKeeps(s: Store, cmds: seq<Command>, df: DateFormat)
    requires Restorable(s) && s.nextId + |cmds| <= MaxInt32
    ensures var r := Session(s, cmds, df);
      Restorable(r) && s.nextId <= r.nextId <= s.nextId + |cmds|
    decreases |cmds|
  {
    if cmds != [] {
      ExecuteKeeps(s, cmds[0], df);
      SessionKeeps(Execute(s, cmds[0], df).store, cmds[1..], df);
    }
  }

  /**
   * Whatever commands are typed, starting from an empty store, saving and loading again
   * gives back exactly the store the session built, counter included.
   */
  lemma SessionSurvivesRestart(cmds: seq<Command>, df: DateFormat)
    requires WellBehaved(df) && |cmds| < MaxInt32
    ensures var r := Session(Empty, cmds, df);
      var saved := Save(r, df);
      Load(Some(saved.lines), Some(saved.meta), df) == Loading(r, None)
  {
    SessionKeeps(Empty, cmds, df);
    SaveLoadRoundTrip(Session(Empty, cmds, df), df);
  }
}

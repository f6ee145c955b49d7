/**
 * The input helpers of the command handlers: flag parsing, the leading title text, tag
 * lists, priority words, ids, dates, and the truncation used when rendering.
 */
module CommandParsing {
  import opened Base
  import opened JavaText
  import opened Decimal
  import opened Records

  /** What Java's regular expression `\s` matches: space, tab, newline, vertical tab, form feed, carriage return. */
  predicate IsRegexSpace(c: char) {
    c == ' ' || c == '\t' || c == '\n' || c == '\U{0B}' || c == '\U{0C}' || c == '\r'
  }

  /** A token of `split("\\s+")`: non-empty, with no `\s` character. */
  predicate IsWord(w: string) {
    w != [] && forall j :: 0 <= j < |w| ==> !IsRegexSpace(w[j])
  }

  /** The tokenizer's state: the word being read and the words already complete. */
  datatype WordState = WordState(cur: string, words: seq<string>)

  function WordStep(st: WordState, c: char): WordState {
    if !IsRegexSpace(c) then st.(cur := st.cur + [c])
    else if st.cur == [] then st
    else WordState([], st.words + [st.cur])
  }

  function WordRun(st: WordState, s: string): WordState
    decreases |s|
  {
    if s == [] then st else WordRun(WordStep(st, s[0]), s[1..])
  }

  /** Keeps the tokenizer's words well formed and its pending word free of `\s`. */
  ghost predicate WordsOk(st: WordState) {
    (forall i :: 0 <= i < |st.words| ==> IsWord(st.words[i]))
    && forall j :: 0 <= j < |st.cur| ==> !IsRegexSpace(st.cur[j])
  }

  lemma {:induction false} WordRunOk(st: WordState, s: string)
    requires WordsOk(st)
    ensures WordsOk(WordRun(st, s))
    decreases |s|
  {
    if s != [] {
      var next := WordStep(st, s[0]);
      assert WordsOk(next) by {
        if IsRegexSpace(s[0]) && st.cur != [] {
          assert next.words[|st.words|] == st.cur;
        }
      }
      WordRunOk(next, s[1..]);
    }
  }

  /**
   * The tokens of `s.split("\\s+")` that the flag parser can act on: the maximal runs of
   * non-`\s` characters. (Java's split also yields one empty token when `s` starts with
   * whitespace; the parser ignores it, since no flag is open yet.)
   */
  function Words(s: string): (r: seq<string>)
    ensures forall i :: 0 <= i < |r| ==> IsWord(r[i])
  {
    var st := WordRun(WordState([], []), s);
    WordRunOk(WordState([], []), s);
    st.words + (if st.cur == [] then [] else [st.cur])
  }

  lemma {:induction false} WordRunAppend(st: WordState, a: string, b: string)
    ensures WordRun(st, a + b) == WordRun(WordRun(st, a), b)
    decreases |a|
  {
    if a == [] {
      assert a + b == b;
    } else {
      assert (a + b)[0] == a[0];
      assert (a + b)[1..] == a[1..] + b;
      WordRunAppend(WordStep(st, a[0]), a[1..], b);
    }
  }

  /** A word is read whole into the pending word. */
  lemma {:induction false} WordRunWord(cur: string, words: seq<string>, w: string)
    requires forall j :: 0 <= j < |w| ==> !IsRegexSpace(w[j])
    ensures WordRun(WordState(cur, words), w) == WordState(cur + w, words)
    decreases |w|
  {
    if w == [] {
      assert cur + w == cur;
    } else {
      assert forall j :: 0 <= j < |w| - 1 ==> w[1..][j] == w[j + 1];
      WordRunWord(cur + [w[0]], words, w[1..]);
      assert cur + [w[0]] + w[1..] == cur + w;
    }
  }

  lemma {:induction false} WordRunJoin(words: seq<string>, ws: seq<string>)
    requires |ws| >= 1 && forall i :: 0 <= i < |ws| ==> IsWord(ws[i])
    ensures WordRun(WordState([], words), Join(' ', ws)) == WordState(ws[|ws| - 1], words + ws[..|ws| - 1])
    decreases |ws|
  {
    if |ws| == 1 {
      WordRunWord([], words, ws[0]);
      assert [] + ws[0] == ws[0];
      assert words + ws[..0] == words;
    } else {
      var tail := Join(' ', ws[1..]);
      assert Join(' ', ws) == ws[0] + ([' '] + tail);
      WordRunAppend(WordState([], words), ws[0], [' '] + tail);
      WordRunWord([], words, ws[0]);
      assert [] + ws[0] == ws[0];
      assert ([' '] + tail)[0] == ' ' && ([' '] + tail)[1..] == tail;
      assert WordRun(WordState(ws[0], words), [' '] + tail) == WordRun(WordState([], words + [ws[0]]), tail);
      assert forall i :: 0 <= i < |ws| - 1 ==> ws[1..][i] == ws[i + 1];
      WordRunJoin(words + [ws[0]], ws[1..]);
      assert words + [ws[0]] + ws[1..][..|ws| - 2] == words + ws[..|ws| - 1];
    }
  }

  lemma {:induction false} WordsOfRun(s: string, cur: string, words: seq<string>)
    requires WordRun(WordState([], []), s) == WordState(cur, words)
    ensures Words(s) == words + (if cur == [] then [] else [cur])
  {
  }

  /** Words separated by single spaces are read back as the same words. */
  lemma {:induction false} WordsJoin(ws: seq<string>)
    requires forall i :: 0 <= i < |ws| ==> IsWord(ws[i])
    ensures Words(Join(' ', ws)) == ws
  {
    if ws != [] {
      var init, last := ws[..|ws| - 1], ws[|ws| - 1];
      assert last != [] by {
        assert IsWord(ws[|ws| - 1]);
      }
      assert WordRun(WordState([], []), Join(' ', ws)) == WordState(last, init) by {
        WordRunJoin([], ws);
        assert [] + init == init;
      }
      WordsOfRun(Join(' ', ws), last, init);
      assert init + [last] == ws;
    } else {
      WordsOfRun([], [], []);
    }
  }

  /** A word starting with `/` names a flag. */
  predicate IsFlag(w: string) {
    StartsWith(w, "/")
  }

  /** The flag parser's state: the flags read so far, the open flag if any, and the words of its value. */
  datatype FlagState = FlagState(out: map<string, string>, current: Option<string>, val: seq<string>)

  /** Files the open flag's value, trimmed, under its key. */
  function Close(st: FlagState): map<string, string> {
    match st.current
    case None => st.out
    case Some(key) => st.out[key := Trim(Join(' ', st.val))]
  }

  function FlagStep(st: FlagState, w: string): FlagState {
    if IsFlag(w) then FlagState(Close(st), Some(AsciiLower(w)), [])
    else if st.current.Some? then st.(val := st.val + [w])
    else st
  }

  function FlagRun(st: FlagState, ws: seq<string>): FlagState
    decreases |ws|
  {
    if ws == [] then st else FlagRun(FlagStep(st, ws[0]), ws[1..])
  }

  /** The key a flag word is filed under. */
  function FlagKey(w: string): string {
    AsciiLower(w)
  }

  /** The flags of a word sequence, each filed under its lower-cased word. */
  function Flags(ws: seq<string>): map<string, string> {
    Close(FlagRun(FlagState(map[], None, []), ws))
  }

  /** The keys of the flag words among `ws`. */
  function FlagKeysOf(ws: seq<string>): set<string> {
    set i | 0 <= i < |ws| && IsFlag(ws[i]) :: FlagKey(ws[i])
  }

  /**
   * `parseFlags(input)`: every word starting with `/` opens a flag, and the words up to
   * the next flag, joined by single spaces and trimmed, are its value; a flag given
   * twice keeps its last value; words before the first flag are ignored. A null input
   * gives no flags.
   */
  function ParseFlags(input: Option<string>): (r: map<string, string>)
    ensures input.None? ==> r == map[]
    ensures input.Some? ==> r.Keys == FlagKeysOf(Words(input.value))
  {
    match input
    case None => map[]
    case Some(s) =>
      FlagKeys(Words(s));
      Flags(Words(s))
  }

  /** The keys the parser has filed or holds open. */
  function Keys(st: FlagState): set<string> {
    st.out.Keys + (if st.current.Some? then {st.current.value} else {})
  }

  lemma FlagKeysOfCons(ws: seq<string>)
    requires ws != []
    ensures FlagKeysOf(ws) == (if IsFlag(ws[0]) then {FlagKey(ws[0])} else {}) + FlagKeysOf(ws[1..])
  {
    var rest := ws[1..];
    forall k | k in FlagKeysOf(ws) ensures k in (if IsFlag(ws[0]) then {FlagKey(ws[0])} else {}) + FlagKeysOf(rest) {
      var i :| 0 <= i < |ws| && IsFlag(ws[i]) && FlagKey(ws[i]) == k;
      if i > 0 {
        assert rest[i - 1] == ws[i];
      }
    }
    forall k | k in FlagKeysOf(rest) ensures k in FlagKeysOf(ws) {
      var i :| 0 <= i < |rest| && IsFlag(rest[i]) && FlagKey(rest[i]) == k;
      assert ws[i + 1] == rest[i];
    }
  }

  lemma {:induction false} FlagRunKeys(st: FlagState, ws: seq<string>)
    ensures Keys(FlagRun(st, ws)) == Keys(st) + FlagKeysOf(ws)
    decreases |ws|
  {
    if ws != [] {
      var next := FlagStep(st, ws[0]);
      assert Keys(next) == Keys(st) + (if IsFlag(ws[0]) then {FlagKey(ws[0])} else {});
      FlagRunKeys(next, ws[1..]);
      FlagKeysOfCons(ws);
    }
  }

  /** The parsed flags are exactly the flag words, lower-cased. */
  lemma FlagKeys(ws: seq<string>)
    ensures Flags(ws).Keys == FlagKeysOf(ws)
  {
    FlagRunKeys(FlagState(map[], None, []), ws);
  }

  lemma {:induction false} FlagRunAppend(st: FlagState, a: seq<string>, b: seq<string>)
    ensures FlagRun(st, a + b) == FlagRun(FlagRun(st, a), b)
    decreases |a|
  {
    if a == [] {
      assert a + b == b;
    } else {
      assert (a + b)[0] == a[0];
      assert (a + b)[1..] == a[1..] + b;
      FlagRunAppend(FlagStep(st, a[0]), a[1..], b);
    }
  }

  /** With a flag open, plain words are collected as its value. */
  lemma {:induction false} FlagRunValue(st: FlagState, vals: seq<string>)
    requires st.current.Some?
    requires forall i :: 0 <= i < |vals| ==> !IsFlag(vals[i])
    ensures FlagRun(st, vals) == st.(val := st.val + vals)
    decreases |vals|
  {
    if vals == [] {
      assert st.val + vals == st.val;
    } else {
      assert forall i :: 0 <= i < |vals| - 1 ==> vals[1..][i] == vals[i + 1];
      FlagRunValue(st.(val := st.val + [vals[0]]), vals[1..]);
      assert st.val + [vals[0]] + vals[1..] == st.val + vals;
    }
  }

  /** A filed value stays put while no flag with its key comes along. */
  lemma {:induction false} FlagRunKeeps(st: FlagState, ws: seq<string>, key: string)
    requires key in st.out && st.current != Some(key)
    requires forall i :: 0 <= i < |ws| && IsFlag(ws[i]) ==> FlagKey(ws[i]) != key
    ensures var r := FlagRun(st, ws); key in r.out && r.out[key] == st.out[key] && r.current != Some(key)
    decreases |ws|
  {
    if ws != [] {
      assert forall i :: 0 <= i < |ws| - 1 ==> ws[1..][i] == ws[i + 1];
      FlagRunKeeps(FlagStep(st, ws[0]), ws[1..], key);
    }
  }

  /** Closing the open flag leaves the values filed under other keys alone. */
  lemma CloseKeeps(st: FlagState, key: string)
    requires key in st.out && st.current != Some(key)
    ensures key in Close(st) && Close(st)[key] == st.out[key]
  {
  }

  /** A flag word closes the open flag and opens its own, which then collects the plain words after it. */
  lemma {:induction false} FlagRunOpen(st: FlagState, f: string, vals: seq<string>)
    requires IsFlag(f)
    requires forall i :: 0 <= i < |vals| ==> !IsFlag(vals[i])
    ensures FlagRun(st, [f] + vals) == FlagState(Close(st), Some(FlagKey(f)), vals)
  {
    var s1 := FlagStep(st, f);
    assert ([f] + vals)[0] == f && ([f] + vals)[1..] == vals;
    FlagRunValue(s1, vals);
    assert [] + vals == vals;
  }

  /** The open flag is filed with its collected value when the next flag, or the end, comes, and nothing later changes it. */
  lemma {:induction false} FlagRunFiles(st: FlagState, post: seq<string>)
    requires st.current.Some?
    requires post == [] || IsFlag(post[0])
    requires forall i :: 0 <= i < |post| && IsFlag(post[i]) ==> FlagKey(post[i]) != st.current.value
    ensures st.current.value in Close(FlagRun(st, post))
    ensures Close(FlagRun(st, post))[st.current.value] == Trim(Join(' ', st.val))
  {
    var key := st.current.value;
    if post != [] {
      var s3 := FlagStep(st, post[0]);
      assert key in s3.out && s3.out[key] == Trim(Join(' ', st.val)) && s3.current != Some(key);
      assert forall i :: 0 <= i < |post| - 1 && IsFlag(post[1..][i]) ==> FlagKey(post[1..][i]) != key by {
        forall i | 0 <= i < |post| - 1 && IsFlag(post[1..][i]) ensures FlagKey(post[1..][i]) != key {
          assert post[1..][i] == post[i + 1];
        }
      }
      FlagRunKeeps(s3, post[1..], key);
      assert FlagRun(st, post) == FlagRun(s3, post[1..]);
      CloseKeeps(FlagRun(s3, post[1..]), key);
    }
  }

  /**
   * The value of a flag is the words between it and the next flag, joined by single
   * spaces and trimmed, provided the same flag does not come again later.
   */
  lemma {:induction false} FlagValue(pre: seq<string>, f: string, vals: seq<string>, post: seq<string>)
    requires IsFlag(f)
    requires forall i :: 0 <= i < |vals| ==> !IsFlag(vals[i])
    requires post == [] || IsFlag(post[0])
    requires forall i :: 0 <= i < |post| && IsFlag(post[i]) ==> FlagKey(post[i]) != FlagKey(f)
    ensures var flags := Flags(pre + [f] + vals + post);
      FlagKey(f) in flags && flags[FlagKey(f)] == Trim(Join(' ', vals))
  {
    var s0 := FlagState(map[], None, []);
    var st := FlagRun(s0, pre);
    assert pre + [f] + vals + post == pre + ([f] + vals) + post;
    FlagRunAppend(s0, pre + ([f] + vals), post);
    FlagRunAppend(s0, pre, [f] + vals);
    FlagRunOpen(st, f, vals);
    FlagRunFiles(FlagState(Close(st), Some(FlagKey(f)), vals), post);
  }

  /** The first index of `" /"` in `s`, if any. */
  function IndexOfFlagStart(s: string): (r: Option<nat>)
    ensures r.Some? ==> r.value + 1 < |s| && s[r.value] == ' ' && s[r.value + 1] == '/'
    ensures r.Some? ==> forall i :: 0 <= i < r.value ==> !(s[i] == ' ' && s[i + 1] == '/')
    ensures r.None? ==> forall i :: 0 <= i < |s| - 1 ==> !(s[i] == ' ' && s[i + 1] == '/')
    decreases |s|
  {
    if |s| < 2 then None
    else if s[0] == ' ' && s[1] == '/' then Some(0)
    else
      match IndexOfFlagStart(s[1..])
      case None => None
      case Some(k) => Some(k + 1)
  }

  /** `leadingText(input)`: the text before the first `" /"`, trimmed; a null input gives the empty string. */
  function LeadingText(input: Option<string>): (r: string)
    ensures input.None? ==> r == []
    ensures input.Some? ==> exists n :: 0 <= n <= |input.value| && r == Trim(input.value[..n])
    ensures input.Some? && (forall i :: 0 <= i < |input.value| - 1 ==> !(input.value[i] == ' ' && input.value[i + 1] == '/')) ==>
              r == Trim(input.value)
  {
    match input
    case None => []
    case Some(s) =>
      match IndexOfFlagStart(s)
      case None => assert s[..|s|] == s; Trim(s)
      case Some(i) => Trim(s[..i])
  }

  /** The title typed before the flags is what `leadingText` reads back. */
  lemma LeadingTextOfCommand(title: string, rest: string)
    requires forall i :: 0 <= i < |title| - 1 ==> !(title[i] == ' ' && title[i + 1] == '/')
    ensures LeadingText(Some(title + " /" + rest)) == Trim(title)
  {
    var s := title + " /" + rest;
    var idx := IndexOfFlagStart(s);
    assert s[|title|] == ' ' && s[|title| + 1] == '/';
    assert forall i :: 0 <= i < |title| ==> s[i] == title[i];
    if |title| >= 1 {
      assert s[|title| - 1] == title[|title| - 1] && s[|title|] == ' ';
    }
    assert idx == Some(|title|);
    assert s[..|title|] == title;
  }

  /** `truncate(s, max)`: text longer than `max` is cut to `max - 1` characters and marked with an ellipsis. */
  function Truncate(s: Option<string>, max: int): (r: string)
    ensures s.None? ==> r == []
    ensures s.Some? && |s.value| <= max ==> r == s.value
    ensures s.Some? && |s.value| > max ==> |r| == Max(0, max - 1) + 1 && r[..|r| - 1] == s.value[..|r| - 1] && r[|r| - 1] == '\U{2026}'
    ensures s.Some? && max >= 1 ==> |r| <= max
  {
    match s
    case None => []
    case Some(text) =>
      if |text| <= max then text else text[..Max(0, max - 1)] + "\U{2026}"
  }

  /** A truncated text already fits, so truncating it again to the same width changes nothing. */
  lemma TruncateIdempotent(s: Option<string>, max: int)
    requires max >= 1
    ensures Truncate(Some(Truncate(s, max)), max) == Truncate(s, max)
  {
  }

  /** A tag as `parseTags` produces it: non-empty, comma-free, with nothing `trim` would strip at either end. */
  predicate IsTag(t: string) {
    t != [] && ',' !in t && !IsTrimmable(t[0]) && !IsTrimmable(t[|t| - 1])
  }

  predicate AllTags(ts: seq<string>) {
    forall i :: 0 <= i < |ts| ==> IsTag(ts[i])
  }

  /** The non-empty trimmed pieces, as a set. */
  function TrimmedPieces(pieces: seq<string>): set<string>
    decreases |pieces|
  {
    if pieces == [] then {}
    else (if Trim(pieces[0]) == [] then {} else {Trim(pieces[0])}) + TrimmedPieces(pieces[1..])
  }

  /** A text is among the trimmed pieces exactly when some piece trims to it and it is not empty. */
  lemma {:induction false} TrimmedPiecesMembers(pieces: seq<string>, tag: string)
    ensures tag in TrimmedPieces(pieces) <==> tag != [] && exists p :: p in pieces && Trim(p) == tag
    decreases |pieces|
  {
    if pieces != [] {
      var rest := pieces[1..];
      TrimmedPiecesMembers(rest, tag);
      assert forall p :: p in pieces <==> p == pieces[0] || p in rest by {
        assert pieces == [pieces[0]] + rest;
      }
    }
  }

  /**
   * `parseTags(s)`: a null, blank or `none` list is empty; otherwise the comma-separated
   * pieces, trimmed, empty ones dropped, duplicates collapsed.
   */
  function ParseTags(s: Option<string>): (r: OrderedSet)
    ensures AllTags(r)
    ensures s.None? || IsBlank(s.value) || EqualsIgnoreCase(s.value, "none") ==> r == []
    ensures s.Some? && !IsBlank(s.value) && !EqualsIgnoreCase(s.value, "none") ==>
              forall tag :: tag in r <==> tag in TrimmedPieces(Split(s.value, ','))
  {
    match s
    case None => []
    case Some(text) =>
      if IsBlank(text) || EqualsIgnoreCase(text, "none") then []
      else
        var pieces := Split(text, ',');
        TagsFromTags([], pieces);
        TagsFromMembers([], pieces);
        TagsFrom([], pieces)
  }

  /** Adds each non-empty trimmed piece not yet present, in order. */
  function TagsFrom(acc: OrderedSet, pieces: seq<string>): (r: OrderedSet)
    ensures |acc| <= |r| && r[..|acc|] == acc
    decreases |pieces|
  {
    if pieces == [] then acc
    else
      var t := Trim(pieces[0]);
      TagsFrom(if t == [] then acc else Insert(acc, t), pieces[1..])
  }

  /** Every piece of a comma split trims to a tag or to nothing. */
  lemma PieceTrimsToTag(p: string)
    requires ',' !in p
    ensures Trim(p) == [] || IsTag(Trim(p))
  {
    TrimInfix(p);
  }

  lemma {:induction false} TagsFromTags(acc: OrderedSet, pieces: seq<string>)
    requires AllTags(acc)
    requires forall i :: 0 <= i < |pieces| ==> ',' !in pieces[i]
    ensures AllTags(TagsFrom(acc, pieces))
    decreases |pieces|
  {
    if pieces != [] {
      var t := Trim(pieces[0]);
      var next := if t == [] then acc else Insert(acc, t);
      assert AllTags(next) by {
        PieceTrimsToTag(pieces[0]);
        assert forall i :: 0 <= i < |next| ==> next[i] in acc || next[i] == t;
      }
      assert forall i :: 0 <= i < |pieces| - 1 ==> ',' !in pieces[1..][i] by {
        forall i | 0 <= i < |pieces| - 1 ensures ',' !in pieces[1..][i] {
          assert pieces[1..][i] == pieces[i + 1];
        }
      }
      TagsFromTags(next, pieces[1..]);
      assert TagsFrom(acc, pieces) == TagsFrom(next, pieces[1..]);
    }
  }

  lemma {:induction false} TagsFromMembers(acc: OrderedSet, pieces: seq<string>)
    ensures var r := TagsFrom(acc, pieces); forall tag :: tag in r <==> tag in acc || tag in TrimmedPieces(pieces)
    decreases |pieces|
  {
    if pieces != [] {
      var t := Trim(pieces[0]);
      var next := if t == [] then acc else Insert(acc, t);
      TagsFromMembers(next, pieces[1..]);
    }
  }

  /** Trimming takes a contiguous part of the text. */
  lemma TrimInfix(s: string)
    ensures forall c :: c in Trim(s) ==> c in s
  {
    var a := TrimStart(s);
    var r := TrimEnd(a);
    assert forall c :: c in r ==> c in a;
  }

  /** `parsePriority(s)`: `h`, `hi`, `high` and `l`, `lo`, `low` in any case; anything else, and no text, is MEDIUM. */
  function ParsePriority(s: Option<string>): (r: Priority)
    ensures s.None? || IsBlank(s.value) ==> r == MEDIUM
    ensures s.Some? && !IsBlank(s.value) ==>
              && (r == HIGH <==> AsciiLower(s.value) in {"h", "hi", "high"})
              && (r == LOW <==> AsciiLower(s.value) in {"l", "lo", "low"})
  {
    match s
    case None => MEDIUM
    case Some(text) =>
      if IsBlank(text) then MEDIUM
      else
        var lower := AsciiLower(text);
        if lower == "h" || lower == "hi" || lower == "high" then HIGH
        else if lower == "l" || lower == "lo" || lower == "low" then LOW
        else MEDIUM
  }

  /** Lower-casing a word of letters twice is lower-casing it once; a name is not blank. */
  lemma LowerWord(upper: string, lower: string)
    requires |upper| == |lower| >= 1
    requires forall i :: 0 <= i < |upper| ==> LowerChar(upper[i]) == lower[i] && LowerChar(lower[i]) == lower[i]
    requires 'a' <= lower[0] <= 'z'
    ensures AsciiLower(upper) == lower && AsciiLower(lower) == lower
    ensures !IsBlank(upper) && !IsBlank(lower)
  {
    assert !IsJavaWhitespace(lower[0]);
    assert !IsJavaWhitespace(upper[0]);
  }

  /** A name whose lower case is `lower` reads as `p` in either case. */
  lemma NameReads(p: Priority, lower: string)
    requires |PriorityName(p)| == |lower| >= 1 && 'a' <= lower[0] <= 'z'
    requires forall i :: 0 <= i < |lower| ==> LowerChar(PriorityName(p)[i]) == lower[i] && LowerChar(lower[i]) == lower[i]
    requires p == HIGH <==> lower in {"h", "hi", "high"}
    requires p == LOW <==> lower in {"l", "lo", "low"}
    ensures ParsePriority(Some(PriorityName(p))) == p
    ensures ParsePriority(Some(AsciiLower(PriorityName(p)))) == p
  {
    LowerWord(PriorityName(p), lower);
  }

  /** The priority names, in upper or lower case, read as their priorities. */
  lemma ParsePriorityNames(p: Priority)
    ensures ParsePriority(Some(PriorityName(p))) == p
    ensures ParsePriority(Some(AsciiLower(PriorityName(p)))) == p
  {
    match p
    case LOW => NameReads(p, "low");
    case MEDIUM => NameReads(p, "medium");
    case HIGH => NameReads(p, "high");
  }

  /** `parseId(s)`: the trimmed text as an `int`; `None` stands for the "numeric id" error. */
  function ParseId(s: string): Option<Int32> {
    ParseInt(Trim(s))
  }

  /** An id typed with surrounding blanks reads as that id. */
  lemma ParseIdPadded(a: string, n: Int32, b: string)
    requires forall i :: 0 <= i < |a| ==> IsTrimmable(a[i])
    requires forall i :: 0 <= i < |b| ==> IsTrimmable(b[i])
    ensures ParseId(a + IntToString(n) + b) == Some(n)
  {
    var x := IntToString(n);
    assert !IsTrimmable(x[0]) && !IsTrimmable(x[|x| - 1]);
    TrimPadded(a, x, b);
    ParseIntToString(n);
  }

  /** Trimming strips exactly the trimmable padding around text that starts and ends untrimmable. */
  lemma TrimPadded(a: string, x: string, b: string)
    requires x != [] && !IsTrimmable(x[0]) && !IsTrimmable(x[|x| - 1])
    requires forall i :: 0 <= i < |a| ==> IsTrimmable(a[i])
    requires forall i :: 0 <= i < |b| ==> IsTrimmable(b[i])
    ensures Trim(a + x + b) == x
  {
    TrimStartPadded(a, x + b);
    assert a + x + b == a + (x + b);
    TrimEndPadded(x, b);
  }

  lemma {:induction false} TrimStartPadded(a: string, y: string)
    requires y != [] && !IsTrimmable(y[0])
    requires forall i :: 0 <= i < |a| ==> IsTrimmable(a[i])
    ensures TrimStart(a + y) == y
    decreases |a|
  {
    if a == [] {
      assert a + y == y;
    } else {
      var s := a + y;
      assert s[0] == a[0];
      assert s[1..] == a[1..] + y;
      assert TrimStart(s) == TrimStart(s[1..]);
      assert forall i :: 0 <= i < |a| - 1 ==> IsTrimmable(a[1..][i]) by {
        forall i | 0 <= i < |a| - 1 ensures IsTrimmable(a[1..][i]) {
          assert a[1..][i] == a[i + 1];
        }
      }
      TrimStartPadded(a[1..], y);
    }
  }

  lemma {:induction false} TrimEndPadded(x: string, b: string)
    requires x != [] && !IsTrimmable(x[|x| - 1])
    requires forall i :: 0 <= i < |b| ==> IsTrimmable(b[i])
    ensures TrimEnd(x + b) == x
    decreases |b|
  {
    if b == [] {
      assert x + b == x;
    } else {
      assert (x + b)[..|x + b| - 1] == x + b[..|b| - 1];
      TrimEndPadded(x, b[..|b| - 1]);
    }
  }
}

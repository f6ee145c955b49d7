/**
 * The escaping of free-text fields in a task line (`Task.escape` / `Task.unescape`):
 * a backslash becomes `\\`, a tab `\t` and a newline `\n`; the reverse pass is a
 * two-state scanner.
 */
module Escaping {
  import opened Base

  /** `String.replace(target, replacement)` for a one-character target. */
  function ReplaceChar(s: string, c: char, rep: string): (r: string)
    ensures c !in rep ==> c !in r
    ensures forall x :: x in r ==> x in s || x in rep
    decreases |s|
  {
    if s == [] then [] else (if s[0] == c then rep else [s[0]]) + ReplaceChar(s[1..], c, rep)
  }

  lemma {:induction false} ReplaceCharAppend(a: string, b: string, c: char, rep: string)
    ensures ReplaceChar(a + b, c, rep) == ReplaceChar(a, c, rep) + ReplaceChar(b, c, rep)
    decreases |a|
  {
    if a == [] {
      assert a + b == b;
    } else {
      assert (a + b)[0] == a[0];
      assert (a + b)[1..] == a[1..] + b;
      ReplaceCharAppend(a[1..], b, c, rep);
    }
  }

  /** The escape of a single character. */
  function EscapeChar(c: char): string {
    if c == '\\' then "\\\\"
    else if c == '\t' then "\\t"
    else if c == '\n' then "\\n"
    else [c]
  }

  /** Each character escaped on its own: the reference definition of the escape. */
  function EscapeEach(s: string): string
    decreases |s|
  {
    if s == [] then [] else EscapeChar(s[0]) + EscapeEach(s[1..])
  }

  /** The three replacements `escape` performs, in the order it performs them. */
  function ReplaceChain(s: string): string {
    ReplaceChar(ReplaceChar(ReplaceChar(s, '\\', "\\\\"), '\t', "\\t"), '\n', "\\n")
  }

  /** Java's chain of whole-string replacements escapes each character independently. */
  lemma {:induction false} ReplaceChainIsEscapeEach(s: string)
    ensures ReplaceChain(s) == EscapeEach(s)
    decreases |s|
  {
    if s != [] {
      var c, rest := s[0], s[1..];
      assert s == [c] + rest;
      ReplaceCharAppend([c], rest, '\\', "\\\\");
      var a1, b1 := ReplaceChar([c], '\\', "\\\\"), ReplaceChar(rest, '\\', "\\\\");
      ReplaceCharAppend(a1, b1, '\t', "\\t");
      var a2, b2 := ReplaceChar(a1, '\t', "\\t"), ReplaceChar(b1, '\t', "\\t");
      ReplaceCharAppend(a2, b2, '\n', "\\n");
      ReplaceChainIsEscapeEach(rest);
      assert ReplaceChar(a2, '\n', "\\n") == EscapeChar(c);
    }
  }

  /**
   * A field as it appears in a line: no raw tab, and every backslash opens a
   * two-character pair.
   */
  predicate EscapedField(s: string)
    decreases |s|
  {
    if s == [] then true
    else if s[0] == '\\' then |s| >= 2 && EscapedField(s[2..])
    else s[0] != '\t' && EscapedField(s[1..])
  }

  lemma {:induction false} EscapedFieldAppend(a: string, b: string)
    requires EscapedField(a) && EscapedField(b)
    ensures EscapedField(a + b)
    decreases |a|
  {
    if a == [] {
      assert a + b == b;
    } else if a[0] == '\\' {
      assert (a + b)[2..] == a[2..] + b;
      EscapedFieldAppend(a[2..], b);
    } else {
      assert (a + b)[1..] == a[1..] + b;
      EscapedFieldAppend(a[1..], b);
    }
  }

  /** Text without backslashes and tabs is a field as it stands. */
  lemma {:induction false} PlainTextIsEscapedField(s: string)
    requires '\\' !in s && '\t' !in s
    ensures EscapedField(s)
    decreases |s|
  {
    if s != [] {
      assert s[0] in s;
      assert forall x :: x in s[1..] ==> x in s;
      PlainTextIsEscapedField(s[1..]);
    }
  }

  lemma {:induction false} EscapeEachIsEscapedField(s: string)
    ensures EscapedField(EscapeEach(s))
    decreases |s|
  {
    if s != [] {
      var e := EscapeChar(s[0]);
      assert EscapedField(e) by {
        if s[0] == '\\' || s[0] == '\t' || s[0] == '\n' {
          assert e[2..] == [];
        } else {
          assert e[1..] == [];
        }
      }
      EscapeEachIsEscapedField(s[1..]);
      EscapedFieldAppend(e, EscapeEach(s[1..]));
    }
  }

  /** `Task.escape`: a null string escapes to the empty string. */
  function Escape(s: Option<string>): (r: string)
    ensures s.None? ==> r == []
    ensures s.Some? ==> r == EscapeEach(s.value)
    ensures '\t' !in r && '\n' !in r
    ensures EscapedField(r)
  {
    match s
    case None => []
    case Some(text) =>
      ReplaceChainIsEscapeEach(text);
      EscapeEachIsEscapedField(text);
      ReplaceChain(text)
  }

  /** The character a backslash pair `\c` stands for. */
  function Unescaped(c: char): char {
    if c == 't' then '\t' else if c == 'n' then '\n' else c
  }

  /** The scanner's state: whether the previous character was an unconsumed backslash, and the output so far. */
  datatype UnescapeState = UnescapeState(esc: bool, out: string)

  function UnescapeStep(st: UnescapeState, c: char): UnescapeState {
    if !st.esc && c == '\\' then UnescapeState(true, st.out)
    else if st.esc then UnescapeState(false, st.out + [Unescaped(c)])
    else UnescapeState(false, st.out + [c])
  }

  /** Runs the scanner over `s`, starting from `st`; the output only grows, by at most one character per input character. */
  function UnescapeRun(st: UnescapeState, s: string): (r: UnescapeState)
    ensures |st.out| <= |r.out| <= |st.out| + |s|
    ensures r.out[..|st.out|] == st.out
    decreases |s|
  {
    if s == [] then st else UnescapeRun(UnescapeStep(st, s[0]), s[1..])
  }

  /** `Task.unescape`. */
  function Unescape(s: string): (r: string)
    ensures |r| <= |s|
  {
    UnescapeRun(UnescapeState(false, []), s).out
  }

  lemma {:induction false} UnescapeRunAppend(st: UnescapeState, a: string, b: string)
    ensures UnescapeRun(st, a + b) == UnescapeRun(UnescapeRun(st, a), b)
    decreases |a|
  {
    if a == [] {
      assert a + b == b;
    } else {
      assert (a + b)[0] == a[0];
      assert (a + b)[1..] == a[1..] + b;
      UnescapeRunAppend(UnescapeStep(st, a[0]), a[1..], b);
    }
  }

  /** The escape of one character unescapes to that character. */
  lemma UnescapeEscapeChar(out: string, c: char)
    ensures UnescapeRun(UnescapeState(false, out), EscapeChar(c)) == UnescapeState(false, out + [c])
  {
    var st := UnescapeState(false, out);
    var e := EscapeChar(c);
    if c == '\\' || c == '\t' || c == '\n' {
      var mid := UnescapeState(true, out);
      assert UnescapeStep(st, e[0]) == mid;
      assert e[1..] == [e[1]] && Unescaped(e[1]) == c;
      assert UnescapeRun(mid, [e[1]]) == UnescapeRun(UnescapeStep(mid, e[1]), []);
    } else {
      assert e[1..] == [];
    }
  }

  lemma {:induction false} UnescapeRunEscapeEach(out: string, s: string)
    ensures UnescapeRun(UnescapeState(false, out), EscapeEach(s)) == UnescapeState(false, out + s)
    decreases |s|
  {
    if s == [] {
      assert out + s == out;
    } else {
      var c := s[0];
      var st := UnescapeState(false, out);
      assert UnescapeRun(st, EscapeEach(s)) == UnescapeRun(UnescapeState(false, out + [c]), EscapeEach(s[1..])) by {
        UnescapeRunAppend(st, EscapeChar(c), EscapeEach(s[1..]));
        UnescapeEscapeChar(out, c);
      }
      UnescapeRunEscapeEach(out + [c], s[1..]);
      assert out + [c] + s[1..] == out + s;
    }
  }

  /** Unescaping inverts escaping, for every string (a null string comes back as the empty string). */
  lemma UnescapeEscape(s: string)
    ensures Unescape(Escape(Some(s))) == s
    ensures Unescape(Escape(None)) == []
  {
    UnescapeRunEscapeEach([], s);
    assert [] + s == s;
  }

  /** A lone backslash at the end of the input is dropped. */
  lemma TrailingBackslashDropped(s: string)
    requires !UnescapeRun(UnescapeState(false, []), s).esc
    ensures Unescape(s + "\\") == Unescape(s)
  {
    UnescapeRunAppend(UnescapeState(false, []), s, "\\");
  }

  /** A backslash followed by any character other than `t` and `n` stands for that character. */
  lemma UnescapePair(s: string, c: char)
    requires !UnescapeRun(UnescapeState(false, []), s).esc
    ensures Unescape(s + ['\\', c]) == Unescape(s) + [Unescaped(c)]
    ensures c != 't' && c != 'n' ==> Unescape(s + ['\\', c]) == Unescape(s) + [c]
  {
    UnescapeRunAppend(UnescapeState(false, []), s, ['\\', c]);
    assert ['\\', c][1..] == [c];
  }
}

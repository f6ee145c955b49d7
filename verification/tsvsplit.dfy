/**
 * `Task.splitTsv`: a line is cut at every tab that is not escaped; backslash pairs are
 * kept as they are (they are undone later, field by field), and missing trailing fields
 * are padded with empty strings.
 */
module TsvSplit {
  import opened Base
  import opened JavaText
  import opened Escaping

  /** The splitter's state: a pending backslash, the field being built, and the fields already cut. */
  datatype SplitState = SplitState(esc: bool, cur: string, parts: seq<string>)

  const Start := SplitState(false, [], [])

  function SplitStep(st: SplitState, c: char): SplitState {
    if !st.esc && c == '\\' then st.(esc := true)
    else if st.esc then SplitState(false, st.cur + ['\\', c], st.parts)
    else if c == '\t' then SplitState(false, [], st.parts + [st.cur])
    else st.(cur := st.cur + [c])
  }

  function SplitRun(st: SplitState, s: string): SplitState
    decreases |s|
  {
    if s == [] then st else SplitRun(SplitStep(st, s[0]), s[1..])
  }

  /** The fields of a line before padding: the last one is whatever follows the last separator. */
  function Fields(line: string): (r: seq<string>)
    ensures |r| >= 1
  {
    var st := SplitRun(Start, line);
    st.parts + [st.cur]
  }

  /** `splitTsv(line, expected)`: at least `expected` fields, missing trailing ones empty. */
  function SplitTsv(line: string, expected: nat): (r: seq<string>)
    ensures |r| == Max(expected, |Fields(line)|) && |r| >= expected
    ensures r[..|Fields(line)|] == Fields(line)
    ensures forall i :: |Fields(line)| <= i < |r| ==> r[i] == []
  {
    var f := Fields(line);
    if |f| >= expected then f else f + seq(expected - |f|, _ => [])
  }

  lemma {:induction false} SplitRunAppend(st: SplitState, a: string, b: string)
    ensures SplitRun(st, a + b) == SplitRun(SplitRun(st, a), b)
    decreases |a|
  {
    if a == [] {
      assert a + b == b;
    } else {
      assert (a + b)[0] == a[0];
      assert (a + b)[1..] == a[1..] + b;
      SplitRunAppend(SplitStep(st, a[0]), a[1..], b);
    }
  }

  /** An escaped field passes through the splitter whole: no cut, pairs kept verbatim. */
  lemma {:induction false} SplitRunEscapedField(cur: string, parts: seq<string>, a: string)
    requires EscapedField(a)
    ensures SplitRun(SplitState(false, cur, parts), a) == SplitState(false, cur + a, parts)
    decreases |a|
  {
    var st := SplitState(false, cur, parts);
    if a == [] {
      assert cur + a == cur;
    } else if a[0] == '\\' {
      var mid := SplitState(true, cur, parts);
      var pair := cur + ['\\', a[1]];
      assert SplitRun(st, a) == SplitRun(mid, a[1..]) by {
        assert SplitStep(st, a[0]) == mid;
      }
      assert SplitRun(mid, a[1..]) == SplitRun(SplitState(false, pair, parts), a[2..]) by {
        assert a[1..][0] == a[1] && a[1..][1..] == a[2..];
        assert SplitStep(mid, a[1]) == SplitState(false, pair, parts);
      }
      SplitRunEscapedField(pair, parts, a[2..]);
      assert pair + a[2..] == cur + a by {
        assert a == ['\\', a[1]] + a[2..];
      }
    } else {
      assert SplitRun(st, a) == SplitRun(SplitState(false, cur + [a[0]], parts), a[1..]) by {
        assert SplitStep(st, a[0]) == SplitState(false, cur + [a[0]], parts);
      }
      SplitRunEscapedField(cur + [a[0]], parts, a[1..]);
      assert cur + [a[0]] + a[1..] == cur + a by {
        assert a == [a[0]] + a[1..];
      }
    }
  }

  lemma {:induction false} SplitRunJoin(parts: seq<string>, fs: seq<string>)
    requires |fs| >= 1
    requires forall i :: 0 <= i < |fs| ==> EscapedField(fs[i])
    ensures SplitRun(SplitState(false, [], parts), Join('\t', fs))
         == SplitState(false, fs[|fs| - 1], parts + fs[..|fs| - 1])
    decreases |fs|
  {
    if |fs| == 1 {
      SplitRunEscapedField([], parts, fs[0]);
      assert [] + fs[0] == fs[0];
      assert parts + fs[..0] == parts;
    } else {
      var tail := Join('\t', fs[1..]);
      var st := SplitState(false, [], parts);
      assert Join('\t', fs) == fs[0] + ['\t'] + tail;
      SplitRunAppend(st, fs[0] + ['\t'], tail);
      SplitRunAppend(st, fs[0], ['\t']);
      SplitRunEscapedField([], parts, fs[0]);
      assert [] + fs[0] == fs[0];
      var afterTab := SplitState(false, [], parts + [fs[0]]);
      assert SplitRun(SplitState(false, fs[0], parts), ['\t']) == afterTab by {
        assert SplitStep(SplitState(false, fs[0], parts), '\t') == afterTab;
        assert ['\t'][1..] == [];
      }
      SplitRunJoin(parts + [fs[0]], fs[1..]);
      assert parts + [fs[0]] + fs[1..][..|fs[1..]| - 1] == parts + fs[..|fs| - 1] by {
        assert fs[..|fs| - 1] == [fs[0]] + fs[1..][..|fs[1..]| - 1];
      }
    }
  }

  /** Splitting the tab-join of escaped fields gives the fields back. */
  lemma FieldsOfJoin(fs: seq<string>)
    requires |fs| >= 1
    requires forall i :: 0 <= i < |fs| ==> EscapedField(fs[i])
    ensures Fields(Join('\t', fs)) == fs
  {
    SplitRunJoin([], fs);
    assert [] + fs[..|fs| - 1] + [fs[|fs| - 1]] == fs;
  }

  /** The text a splitter state stands for: its fields joined by tabs, plus any pending backslash. */
  function Render(st: SplitState): string {
    Join('\t', st.parts + [st.cur]) + (if st.esc then "\\" else "")
  }

  predicate FieldsEscaped(st: SplitState) {
    && EscapedField(st.cur)
    && forall i :: 0 <= i < |st.parts| ==> EscapedField(st.parts[i])
  }

  lemma SplitStepRender(st: SplitState, c: char)
    requires FieldsEscaped(st)
    ensures Render(SplitStep(st, c)) == Render(st) + [c]
    ensures FieldsEscaped(SplitStep(st, c))
  {
    var p := st.parts;
    if !st.esc && c == '\\' {
    } else if st.esc {
      JoinExtendLast('\t', p, st.cur, ['\\', c]);
      assert EscapedField(['\\', c]) by {
        assert ['\\', c][2..] == [];
      }
      EscapedFieldAppend(st.cur, ['\\', c]);
      assert Join('\t', p + [st.cur]) + "\\" + [c] == Join('\t', p + [st.cur]) + ['\\', c];
    } else if c == '\t' {
      assert p + [st.cur] + [[]] == (p + [st.cur]) + [[]];
      JoinSnoc('\t', p + [st.cur], []);
      assert forall i :: 0 <= i < |p + [st.cur]| ==> EscapedField((p + [st.cur])[i]);
    } else {
      JoinExtendLast('\t', p, st.cur, [c]);
      assert EscapedField([c]) by {
        assert [c][1..] == [];
      }
      EscapedFieldAppend(st.cur, [c]);
    }
  }

  lemma {:induction false} SplitRunRender(s: string)
    ensures Render(SplitRun(Start, s)) == s
    ensures FieldsEscaped(SplitRun(Start, s))
    decreases |s|
  {
    if s == [] {
    } else {
      var init := s[..|s| - 1];
      var c := s[|s| - 1];
      assert s == init + [c];
      SplitRunRender(init);
      SplitRunAppend(Start, init, [c]);
      assert SplitRun(SplitRun(Start, init), [c]) == SplitStep(SplitRun(Start, init), c) by {
        assert [c][1..] == [];
      }
      SplitStepRender(SplitRun(Start, init), c);
    }
  }

  /**
   * Joining a line's fields by tabs rebuilds the line unless it ends in a lone backslash,
   * and every field is an escaped field.
   */
  lemma JoinOfFields(line: string)
    requires !SplitRun(Start, line).esc
    ensures Join('\t', Fields(line)) == line
    ensures forall i :: 0 <= i < |Fields(line)| ==> EscapedField(Fields(line)[i])
  {
    SplitRunRender(line);
    var st := SplitRun(Start, line);
    assert forall i :: 0 <= i < |st.parts + [st.cur]| ==> EscapedField((st.parts + [st.cur])[i]);
  }

  /** A lone backslash at the end of a line is dropped. */
  lemma TrailingBackslashDropped(line: string)
    requires !SplitRun(Start, line).esc
    ensures Fields(line + "\\") == Fields(line)
  {
    SplitRunAppend(Start, line, "\\");
  }
}

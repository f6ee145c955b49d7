/**
 * The parts of Java's `String` and `LinkedHashSet` behaviour the to-do core relies on:
 * `trim`, `isBlank`, `startsWith`, `String.join`, `String.split` with a one-character
 * separator, and `addAll` into an insertion-ordered set.
 */
module JavaText {

  /** `String.trim` strips every character at or below U+0020 from both ends. */
  predicate IsTrimmable(c: char) {
    c <= ' '
  }

  /** `Character.isWhitespace`, the test behind `String.isBlank`. */
  predicate IsJavaWhitespace(c: char) {
    || c == ' '
    || ('\t' <= c <= '\r')
    || ('\U{1C}' <= c <= '\U{1F}')
    || c == '\U{1680}'
    || ('\U{2000}' <= c <= '\U{2006}')
    || ('\U{2008}' <= c <= '\U{200A}')
    || c == '\U{2028}' || c == '\U{2029}'
    || c == '\U{205F}' || c == '\U{3000}'
  }

  /** `String.isBlank`: empty, or whitespace only. */
  predicate IsBlank(s: string) {
    forall i :: 0 <= i < |s| ==> IsJavaWhitespace(s[i])
  }

  predicate StartsWith(s: string, prefix: string) {
    |prefix| <= |s| && s[..|prefix|] == prefix
  }

  function TrimStart(s: string): (r: string)
    ensures |r| <= |s| && r == s[|s| - |r|..]
    ensures forall i :: 0 <= i < |s| - |r| ==> IsTrimmable(s[i])
    ensures r == [] || !IsTrimmable(r[0])
    decreases |s|
  {
    if s != [] && IsTrimmable(s[0]) then TrimStart(s[1..]) else s
  }

  function TrimEnd(s: string): (r: string)
    ensures |r| <= |s| && r == s[..|r|]
    ensures forall i :: |r| <= i < |s| ==> IsTrimmable(s[i])
    ensures r == [] || !IsTrimmable(r[|r| - 1])
    decreases |s|
  {
    if s != [] && IsTrimmable(s[|s| - 1]) then TrimEnd(s[..|s| - 1]) else s
  }

  /** `String.trim`. */
  function Trim(s: string): (r: string)
    ensures |r| <= |s|
    ensures r == [] || (!IsTrimmable(r[0]) && !IsTrimmable(r[|r| - 1]))
  {
    TrimEnd(TrimStart(s))
  }

  /** Trimming leaves text alone exactly when it neither starts nor ends with a trimmable character. */
  lemma TrimIdle(s: string)
    ensures Trim(s) == s <==> s == [] || (!IsTrimmable(s[0]) && !IsTrimmable(s[|s| - 1]))
  {
    if s != [] && !IsTrimmable(s[0]) && !IsTrimmable(s[|s| - 1]) {
      assert TrimStart(s) == s;
      assert TrimEnd(s) == s;
    }
  }

  /** `String.join(sep, xs)` for a one-character separator. */
  function Join(sep: char, xs: seq<string>): (r: string)
    decreases |xs|
  {
    if |xs| == 0 then []
    else if |xs| == 1 then xs[0]
    else xs[0] + [sep] + Join(sep, xs[1..])
  }

  lemma {:induction false} JoinSnoc(sep: char, xs: seq<string>, y: string)
    requires |xs| >= 1
    ensures Join(sep, xs + [y]) == Join(sep, xs) + [sep] + y
    decreases |xs|
  {
    if |xs| == 1 {
      assert (xs + [y])[1..] == [y];
    } else {
      assert (xs + [y])[1..] == xs[1..] + [y];
      JoinSnoc(sep, xs[1..], y);
    }
  }

  /** Extending the last piece extends the joined text. */
  lemma JoinExtendLast(sep: char, xs: seq<string>, y: string, z: string)
    ensures Join(sep, xs + [y + z]) == Join(sep, xs + [y]) + z
  {
    if |xs| >= 1 {
      JoinSnoc(sep, xs, y + z);
      JoinSnoc(sep, xs, y);
    }
  }

  /** A character in neither the separator nor any piece is not in the join. */
  lemma {:induction false} JoinExcludes(sep: char, xs: seq<string>, c: char)
    requires c != sep && forall i :: 0 <= i < |xs| ==> c !in xs[i]
    ensures c !in Join(sep, xs)
    decreases |xs|
  {
    if |xs| >= 2 {
      JoinExcludes(sep, xs[1..], c);
      assert forall i :: 0 <= i < |xs| - 1 ==> xs[1..][i] == xs[i + 1];
    }
  }

  /** The join begins with the first piece. */
  lemma JoinStartsWithFirst(sep: char, xs: seq<string>)
    requires |xs| >= 1
    ensures StartsWith(Join(sep, xs), xs[0])
  {
    if |xs| >= 2 {
      assert Join(sep, xs) == xs[0] + ([sep] + Join(sep, xs[1..]));
    }
  }

  /** Every piece between separators, empty ones included: the raw material of `String.split`. */
  function Pieces(s: string, sep: char): (r: seq<string>)
    ensures |r| >= 1
    ensures forall i :: 0 <= i < |r| ==> sep !in r[i]
    decreases |s|
  {
    if s == [] then [[]]
    else
      var rest := Pieces(s[1..], sep);
      if s[0] == sep then [[]] + rest
      else [[s[0]] + rest[0]] + rest[1..]
  }

  /** Drops the empty strings at the end of `xs`. */
  function DropTrailingEmpty(xs: seq<string>): (r: seq<string>)
    ensures |r| <= |xs| && r == xs[..|r|]
    ensures r == [] || r[|r| - 1] != []
    ensures forall i :: |r| <= i < |xs| ==> xs[i] == []
    decreases |xs|
  {
    if xs == [] then []
    else if xs[|xs| - 1] == [] then DropTrailingEmpty(xs[..|xs| - 1])
    else xs
  }

  /**
   * `s.split(String.valueOf(sep))` with Java's default limit 0: trailing empty strings
   * are removed, except that the empty string splits into one empty piece.
   */
  function Split(s: string, sep: char): (r: seq<string>)
    ensures s == [] ==> r == [[]]
    ensures forall i :: 0 <= i < |r| ==> sep !in r[i]
  {
    if s == [] then [[]] else DropTrailingEmpty(Pieces(s, sep))
  }

  lemma {:induction false} JoinPieces(s: string, sep: char)
    ensures Join(sep, Pieces(s, sep)) == s
    decreases |s|
  {
    if s != [] {
      var rest := Pieces(s[1..], sep);
      JoinPieces(s[1..], sep);
      if s[0] == sep {
        assert Pieces(s, sep) == [[]] + rest;
        assert s == [] + [sep] + s[1..];
      } else {
        var r := Pieces(s, sep);
        assert r == [[s[0]] + rest[0]] + rest[1..];
        if |rest| == 1 {
          assert s == [s[0]] + rest[0];
        } else {
          assert Join(sep, rest) == rest[0] + [sep] + Join(sep, rest[1..]);
          assert r[1..] == rest[1..];
          assert s == [s[0]] + (rest[0] + [sep] + Join(sep, rest[1..]));
        }
      }
    }
  }

  lemma {:induction false} PiecesOfPrefix(x: string, rest: string, sep: char)
    requires sep !in x
    ensures Pieces(x + rest, sep) == [x + Pieces(rest, sep)[0]] + Pieces(rest, sep)[1..]
    decreases |x|
  {
    if x != [] {
      var p := Pieces(rest, sep);
      assert (x + rest)[1..] == x[1..] + rest;
      PiecesOfPrefix(x[1..], rest, sep);
      var q := Pieces(x[1..] + rest, sep);
      assert q == [x[1..] + p[0]] + p[1..];
      assert (x + rest)[0] == x[0] && x[0] != sep;
      assert Pieces(x + rest, sep) == [[x[0]] + q[0]] + q[1..];
      assert q[1..] == p[1..];
      assert [x[0]] + (x[1..] + p[0]) == x + p[0];
    } else {
      var p := Pieces(rest, sep);
      assert x + rest == rest;
      assert x + p[0] == p[0];
      assert [p[0]] + p[1..] == p;
    }
  }

  /** Splitting the join of separator-free pieces gives the pieces back. */
  lemma {:induction false} PiecesJoin(xs: seq<string>, sep: char)
    requires |xs| >= 1
    requires forall i :: 0 <= i < |xs| ==> sep !in xs[i]
    ensures Pieces(Join(sep, xs), sep) == xs
    decreases |xs|
  {
    if |xs| == 1 {
      PiecesOfPrefix(xs[0], [], sep);
      assert xs[0] + [] == xs[0];
    } else {
      var tail := Join(sep, xs[1..]);
      PiecesJoin(xs[1..], sep);
      PiecesOfPrefix(xs[0], [sep] + tail, sep);
      assert xs[0] + [sep] + tail == xs[0] + ([sep] + tail);
      var q := Pieces([sep] + tail, sep);
      assert q == [[]] + xs[1..] by {
        assert ([sep] + tail)[1..] == tail;
      }
      assert q[0] == [] && q[1..] == xs[1..];
      assert xs[0] + q[0] == xs[0];
      assert xs == [xs[0]] + xs[1..];
    }
  }

  /**
   * `Split` inverts `Join` when no piece holds the separator, at least one piece is given,
   * and the last piece is not empty (Java drops trailing empty pieces).
   */
  lemma SplitJoin(xs: seq<string>, sep: char)
    requires |xs| >= 1 && xs[|xs| - 1] != []
    requires forall i :: 0 <= i < |xs| ==> sep !in xs[i]
    ensures Split(Join(sep, xs), sep) == xs
  {
    PiecesJoin(xs, sep);
    if Join(sep, xs) == [] {
      JoinPieces([], sep);
      assert Pieces([], sep) == [[]];
    }
  }

  /** No string occurs twice. */
  predicate Distinct(xs: seq<string>) {
    forall i, j :: 0 <= i < j < |xs| ==> xs[i] != xs[j]
  }

  /** Java's `LinkedHashSet<String>`: insertion order kept, duplicates collapsed. */
  type OrderedSet = xs: seq<string> | Distinct(xs) witness []

  /** `set.add(x)`: `x` goes last unless it is already present. */
  function Insert(acc: OrderedSet, x: string): (r: OrderedSet)
    ensures |acc| <= |r| <= |acc| + 1 && r[..|acc|] == acc
    ensures forall y :: y in r <==> y in acc || y == x
  {
    if x in acc then acc else acc + [x]
  }

  /** `set.addAll(xs)`: appends, in order, each element not yet present. */
  function AddAll(acc: OrderedSet, xs: seq<string>): (r: OrderedSet)
    ensures |acc| <= |r| && r[..|acc|] == acc
    ensures forall x :: x in r <==> x in acc || x in xs
    decreases |xs|
  {
    if xs == [] then acc else AddAll(Insert(acc, xs[0]), xs[1..])
  }

  /** Adding the elements of an already duplicate-free sequence appends them all unchanged. */
  lemma {:induction false} AddAllDistinct(acc: OrderedSet, xs: seq<string>)
    requires Distinct(acc + xs)
    ensures AddAll(acc, xs) == acc + xs
    decreases |xs|
  {
    if xs != [] {
      assert xs[0] == (acc + xs)[|acc|];
      assert forall i :: 0 <= i < |acc| ==> acc[i] == (acc + xs)[i];
      var acc' := acc + [xs[0]];
      assert acc' + xs[1..] == acc + xs;
      AddAllDistinct(acc', xs[1..]);
    }
  }

  /** The lower-case form of an ASCII capital; every other character is its own lower case. */
  function LowerChar(c: char): char {
    if 'A' <= c <= 'Z' then (c as int + 32) as char else c
  }

  /** `toLowerCase(Locale.ROOT)` restricted to ASCII letters. */
  function AsciiLower(s: string): (r: string)
    ensures |r| == |s|
    ensures forall i :: 0 <= i < |s| ==> r[i] == LowerChar(s[i])
    decreases |s|
  {
    if s == [] then [] else [LowerChar(s[0])] + AsciiLower(s[1..])
  }

  /** `equalsIgnoreCase` for ASCII text. */
  predicate EqualsIgnoreCase(s: string, t: string) {
    AsciiLower(s) == AsciiLower(t)
  }
}

/**
 * conversion.py: `parse_extracted_text` turns text into a list of dict rows,
 * one per line that evaluates to a dict, and `build_json_structure` wraps
 * rows and caller-supplied identifiers in the project/file/metadata
 * envelope. Python's `eval` is a foreign call and appears as the parameter
 * `eval`, None when evaluating the line raises.
 */
module Conversion {
  import opened Wrappers
  import opened PyStr

  /** A Python value, as `eval` may return it or a caller may pass it in. */
  datatype Value =
    | Dict(entries: seq<(Value, Value)>)
    | List(items: seq<Value>)
    | Str(s: string)
    | Int(i: int)
    | Bool(b: bool)
    | NoneValue
    | Other(typeName: string)   // any other kind of object (float, tuple, set, ...)

  /** The value stored under `key` among dict entries. */
  function Lookup(entries: seq<(Value, Value)>, key: Value): Option<Value>
  {
    if entries == [] then None
    else if entries[0].0 == key then Some(entries[0].1)
    else Lookup(entries[1..], key)
  }

  /** `v[key]` for a string key: None when `v` is not a dict or has no such key. */
  function Get(v: Value, key: string): Option<Value>
  {
    if v.Dict? then Lookup(v.entries, Str(key)) else None
  }

  /** `list(v.keys())` of a dict, in insertion order; empty for any other value. */
  function Keys(v: Value): seq<Value>
  {
    if v.Dict? then seq(|v.entries|, k requires 0 <= k < |v.entries| => v.entries[k].0) else []
  }

  /** Lookups in a three-entry dict literal with distinct keys. */
  lemma LookupThree(a: (Value, Value), b: (Value, Value), c: (Value, Value))
    requires a.0 != b.0 && a.0 != c.0 && b.0 != c.0
    ensures Lookup([a, b, c], a.0) == Some(a.1)
    ensures Lookup([a, b, c], b.0) == Some(b.1)
    ensures Lookup([a, b, c], c.0) == Some(c.1)
  {
    var e := [a, b, c];
    assert e[1..] == [b, c] && e[0] == a;
    assert [b, c][1..] == [c] && [b, c][0] == b;
    assert [c][1..] == [] && [c][0] == c;
    assert Lookup(e, b.0) == Lookup([b, c], b.0);
    assert Lookup(e, c.0) == Lookup([b, c], c.0) == Lookup([c], c.0);
  }

  /** Lookups in a four-entry dict literal with distinct keys. */
  lemma LookupFour(a: (Value, Value), b: (Value, Value), c: (Value, Value), d: (Value, Value))
    requires a.0 != b.0 && a.0 != c.0 && a.0 != d.0 && b.0 != c.0 && b.0 != d.0 && c.0 != d.0
    ensures Lookup([a, b, c, d], a.0) == Some(a.1)
    ensures Lookup([a, b, c, d], b.0) == Some(b.1)
    ensures Lookup([a, b, c, d], c.0) == Some(c.1)
    ensures Lookup([a, b, c, d], d.0) == Some(d.1)
  {
    assert [a, b, c, d][1..] == [b, c, d];
    LookupThree(b, c, d);
  }

  /** `v[path[0]][path[1]]...`, None as soon as a step fails. */
  function At(v: Value, path: seq<string>): Option<Value>
    decreases |path|
  {
    if path == [] then Some(v)
    else match Get(v, path[0])
      case None => None
      case Some(w) => At(w, path[1..])
  }

  /** A two-step path is a lookup in a lookup. */
  lemma AtPair(v: Value, a: string, b: string)
    ensures At(v, [a, b]) == if Get(v, a).None? then None else Get(Get(v, a).value, b)
  {
    assert [a, b][1..] == [b];
    assert [b][1..] == [];
    if Get(v, a).Some? {
      var w := Get(v, a).value;
      assert At(w, [b]) == Get(w, b) by {
        if Get(w, b).Some? {
          assert At(w, [b]) == At(Get(w, b).value, []);
        }
      }
    }
  }

  // ---------------------------------------------------------------------------
  // parse_extracted_text
  // ---------------------------------------------------------------------------

  /** `[line.strip() for line in pieces]`: every piece stripped, in order. */
  function StripEach(pieces: seq<string>): (stripped: seq<string>)
    ensures |stripped| == |pieces|
    ensures forall k :: 0 <= k < |pieces| ==> stripped[k] == Strip(pieces[k])
  {
    if pieces == [] then [] else [Strip(pieces[0])] + StripEach(pieces[1..])
  }

  /** The `if line.strip()` filter of line 8: the non-empty strings, in order. */
  function DropEmpty(lines: seq<string>): (kept: seq<string>)
    ensures |kept| <= |lines|
    ensures forall k :: 0 <= k < |kept| ==> kept[k] != []
  {
    if lines == [] then []
    else if lines[0] == [] then DropEmpty(lines[1..])
    else [lines[0]] + DropEmpty(lines[1..])
  }

  /** Dropping empty strings keeps only strings that were there, so it keeps strings stripped. */
  lemma {:induction false} DropEmptyStripped(lines: seq<string>)
    requires forall k :: 0 <= k < |lines| ==> Stripped(lines[k])
    ensures forall k :: 0 <= k < |DropEmpty(lines)| ==> Stripped(DropEmpty(lines)[k])
  {
    if lines != [] {
      DropEmptyStripped(lines[1..]);
      if lines[0] != [] {
        PrependLine(lines[0], DropEmpty(lines[1..]));
      }
    }
  }

  /** Putting one more non-empty stripped line in front keeps every line non-empty and stripped. */
  lemma PrependLine(line: string, rest: seq<string>)
    requires line != [] && Stripped(line)
    requires forall k :: 0 <= k < |rest| ==> Stripped(rest[k])
    ensures forall k :: 0 <= k < |[line] + rest| ==> Stripped(([line] + rest)[k])
  {
    forall k | 0 <= k < |[line] + rest|
      ensures Stripped(([line] + rest)[k])
    {
      if k > 0 {
        assert ([line] + rest)[k] == rest[k - 1];
      }
    }
  }

  /** Line 8: `[line.strip() for line in pieces if line.strip()]`. */
  function NonBlankStripped(pieces: seq<string>): (lines: seq<string>)
    ensures |lines| <= |pieces|
    ensures forall k :: 0 <= k < |lines| ==> lines[k] != [] && Stripped(lines[k])
  {
    DropEmptyStripped(StripEach(pieces));
    DropEmpty(StripEach(pieces))
  }

  /**
   * The lines `parse_extracted_text` considers: the pieces of `text.split('\n')`,
   * stripped, blank ones dropped. Each is a non-empty, stripped line holding no
   * line break, and there are no more of them than pieces.
   */
  function Lines(text: string): (lines: seq<string>)
    ensures |lines| <= |Split(text, '\n')|
    ensures forall k :: 0 <= k < |lines| ==> lines[k] != [] && Stripped(lines[k]) && '\n' !in lines[k]
  {
    var pieces := Split(text, '\n');
    StripEachNoBreak(pieces);
    DropEmptyNoBreak(StripEach(pieces));
    NonBlankStripped(pieces)
  }

  /** Stripping keeps a piece free of line breaks. */
  lemma StripEachNoBreak(pieces: seq<string>)
    requires forall k :: 0 <= k < |pieces| ==> '\n' !in pieces[k]
    ensures forall k :: 0 <= k < |pieces| ==> '\n' !in StripEach(pieces)[k]
  {
    forall k | 0 <= k < |pieces|
      ensures '\n' !in StripEach(pieces)[k]
    {
      StripKeepsOnly(pieces[k], '\n');
    }
  }

  /** Dropping empty strings keeps only strings that were there, so it keeps them free of line breaks. */
  lemma {:induction false} DropEmptyNoBreak(lines: seq<string>)
    requires forall k :: 0 <= k < |lines| ==> '\n' !in lines[k]
    ensures forall k :: 0 <= k < |DropEmpty(lines)| ==> '\n' !in DropEmpty(lines)[k]
  {
    if lines != [] {
      DropEmptyNoBreak(lines[1..]);
      if lines[0] != [] {
        var rest := DropEmpty(lines[1..]);
        forall k | 0 <= k < |[lines[0]] + rest|
          ensures '\n' !in ([lines[0]] + rest)[k]
        {
          if k > 0 {
            assert ([lines[0]] + rest)[k] == rest[k - 1];
          }
        }
      }
    }
  }

  /** What one evaluated line contributes: its value when it is a dict, nothing otherwise. */
  function RowOf(result: Option<Value>): (row: seq<Value>)
    ensures |row| <= 1
    ensures row != [] <==> result.Some? && result.value.Dict?
    ensures row != [] ==> row[0] == result.value
  {
    if result.Some? && result.value.Dict? then [result.value] else []
  }

  /**
   * The rows of lines 12-18: the value of every line that evaluates to a dict,
   * in line order. There are never more rows than lines, and each is a dict.
   */
  function Rows(lines: seq<string>, eval: string -> Option<Value>): (rows: seq<Value>)
    ensures |rows| <= |lines|
    ensures forall k :: 0 <= k < |rows| ==> rows[k].Dict?
  {
    if lines == [] then []
    else RowOf(eval(lines[0])) + Rows(lines[1..], eval)
  }

  /** The rows `parse_extracted_text` returns for `text`: dicts only, never more than its lines. */
  function RowsOfText(text: string, eval: string -> Option<Value>): (rows: seq<Value>)
    ensures |rows| <= |Lines(text)|
    ensures forall k :: 0 <= k < |rows| ==> rows[k].Dict?
  {
    Rows(Lines(text), eval)
  }

  /**
   * conversion.py `parse_extracted_text`: evaluates each considered line and
   * appends the value when it is a dict; a line that fails to evaluate or is
   * not a dict is skipped and processing goes on.
   */
  method ParseExtractedText(text: string, eval: string -> Option<Value>) returns (tableRows: seq<Value>)
    ensures tableRows == RowsOfText(text, eval)
    ensures forall k :: 0 <= k < |tableRows| ==> tableRows[k].Dict?
    ensures |tableRows| <= |Lines(text)|
  {
    var lines := Lines(text);
    tableRows := KeepDicts(lines, eval);
  }

  /** The `for` loop of conversion.py:11-18: the dict values of the lines, in line order. */
  method KeepDicts(lines: seq<string>, eval: string -> Option<Value>) returns (tableRows: seq<Value>)
    ensures tableRows == Rows(lines, eval)
  {
    tableRows := [];
    for i := 0 to |lines|
      invariant tableRows == Rows(lines[..i], eval)
    {
      var rowData := eval(lines[i]);
      if rowData.Some? && rowData.value.Dict? {
        tableRows := tableRows + [rowData.value];
      }
      RowsOfPrefix(lines, i, eval);
    }
    assert lines[..|lines|] == lines;
  }

  /** Rows of concatenated line lists are the concatenated rows: nothing depends on other lines. */
  lemma {:induction false} RowsAppend(a: seq<string>, b: seq<string>, eval: string -> Option<Value>)
    ensures Rows(a + b, eval) == Rows(a, eval) + Rows(b, eval)
    decreases |a|
  {
    if a != [] {
      assert (a + b)[0] == a[0];
      assert (a + b)[1..] == a[1..] + b;
      RowsAppend(a[1..], b, eval);
    } else {
      assert a + b == b;
    }
  }

  /** One more line adds what that line contributes. */
  lemma RowsOfPrefix(lines: seq<string>, i: nat, eval: string -> Option<Value>)
    requires i < |lines|
    ensures Rows(lines[..i + 1], eval) == Rows(lines[..i], eval) + RowOf(eval(lines[i]))
  {
    assert lines[..i + 1] == lines[..i] + [lines[i]];
    RowsAppend(lines[..i], [lines[i]], eval);
    assert Rows([lines[i]], eval) == RowOf(eval(lines[i])) + Rows([], eval);
  }

  /** A line that fails to evaluate, or is not a dict, contributes nothing and stops nothing. */
  lemma RowsSkipLine(a: seq<string>, line: string, b: seq<string>, eval: string -> Option<Value>)
    requires eval(line).None? || !eval(line).value.Dict?
    ensures Rows(a + [line] + b, eval) == Rows(a, eval) + Rows(b, eval)
  {
    assert [line][1..] == [];
    assert Rows([line], eval) == [];
    RowsAppend(a, [line], eval);
    assert Rows(a + [line], eval) == Rows(a, eval);
    RowsAppend(a + [line], b, eval);
  }

  /** Row `k` is the value of line `origin[k]`, for every row. */
  predicate RowsFrom(lines: seq<string>, eval: string -> Option<Value>, origin: seq<nat>) {
    |origin| == |Rows(lines, eval)|
    && forall k :: 0 <= k < |origin| ==> origin[k] < |lines| && eval(lines[origin[k]]) == Some(Rows(lines, eval)[k])
  }

  predicate Increasing(origin: seq<nat>) {
    forall k, l :: 0 <= k < l < |origin| ==> origin[k] < origin[l]
  }

  /** Every line whose value is a dict is the origin of some row. */
  predicate CoversDictLines(lines: seq<string>, eval: string -> Option<Value>, origin: seq<nat>) {
    forall i :: 0 <= i < |lines| && RowOf(eval(lines[i])) != [] ==> i in origin
  }

  /**
   * Every row comes from a line that evaluates to it, rows keep the order of
   * their lines, and every line that evaluates to a dict gives a row.
   */
  lemma {:induction false} RowsInLineOrder(lines: seq<string>, eval: string -> Option<Value>) returns (origin: seq<nat>)
    ensures RowsFrom(lines, eval, origin)
    ensures Increasing(origin)
    ensures CoversDictLines(lines, eval, origin)
  {
    if lines == [] {
      origin := [];
    } else {
      var rest := RowsInLineOrder(lines[1..], eval);
      origin := (if RowOf(eval(lines[0])) != [] then [0] else []) + Shift(rest);
      RowsFromStep(lines, eval, rest, origin);
      IncreasingStep(lines, eval, rest, origin);
      CoversStep(lines, eval, rest, origin);
    }
  }

  lemma RowsFromStep(lines: seq<string>, eval: string -> Option<Value>, rest: seq<nat>, origin: seq<nat>)
    requires lines != [] && RowsFrom(lines[1..], eval, rest)
    requires origin == (if RowOf(eval(lines[0])) != [] then [0] else []) + Shift(rest)
    ensures RowsFrom(lines, eval, origin)
  {
    var head := RowOf(eval(lines[0]));
    var rows := Rows(lines, eval);
    assert rows == head + Rows(lines[1..], eval);
    forall k | 0 <= k < |origin|
      ensures origin[k] < |lines| && eval(lines[origin[k]]) == Some(rows[k])
    {
      if head != [] && k == 0 {
        assert rows[0] == head[0];
      } else {
        var m := if head != [] then k - 1 else k;
        assert origin[k] == rest[m] + 1;
        assert lines[origin[k]] == lines[1..][rest[m]];
        assert rows[k] == Rows(lines[1..], eval)[m];
      }
    }
  }

  lemma IncreasingStep(lines: seq<string>, eval: string -> Option<Value>, rest: seq<nat>, origin: seq<nat>)
    requires lines != [] && Increasing(rest)
    requires origin == (if RowOf(eval(lines[0])) != [] then [0] else []) + Shift(rest)
    ensures Increasing(origin)
  {
    var shifted := Shift(rest);
    var d := |origin| - |shifted|;
    forall k, l | 0 <= k < l < |origin|
      ensures origin[k] < origin[l]
    {
      assert origin[l] == shifted[l - d];
      if k >= d {
        assert origin[k] == shifted[k - d];
      }
    }
  }

  lemma CoversStep(lines: seq<string>, eval: string -> Option<Value>, rest: seq<nat>, origin: seq<nat>)
    requires lines != [] && CoversDictLines(lines[1..], eval, rest)
    requires origin == (if RowOf(eval(lines[0])) != [] then [0] else []) + Shift(rest)
    ensures CoversDictLines(lines, eval, origin)
  {
    var shifted := Shift(rest);
    forall i | 0 <= i < |lines| && RowOf(eval(lines[i])) != []
      ensures i in origin
    {
      if i == 0 {
        assert origin[0] == 0;
      } else {
        assert lines[1..][i - 1] == lines[i];
        var m :| 0 <= m < |rest| && rest[m] == i - 1;
        assert origin[|origin| - |shifted| + m] == i;
      }
    }
  }

  /** Every index one further on. */
  function Shift(s: seq<nat>): (r: seq<nat>)
    ensures |r| == |s| && forall k :: 0 <= k < |s| ==> r[k] == s[k] + 1
  {
    seq(|s|, k requires 0 <= k < |s| => s[k] + 1)
  }

  /** Splitting, stripping and dropping blanks works piece by piece. */
  lemma NonBlankStrippedAppend(a: seq<string>, b: seq<string>)
    ensures NonBlankStripped(a + b) == NonBlankStripped(a) + NonBlankStripped(b)
  {
    StripEachAppend(a, b);
    DropEmptyAppend(StripEach(a), StripEach(b));
  }

  /** Stripping the pieces of two texts strips each text's pieces in turn. */
  lemma {:induction false} StripEachAppend(a: seq<string>, b: seq<string>)
    ensures StripEach(a + b) == StripEach(a) + StripEach(b)
    decreases |a|
  {
    if a == [] {
      assert a + b == b;
    } else {
      assert (a + b)[0] == a[0] && (a + b)[1..] == a[1..] + b;
      StripEachAppend(a[1..], b);
    }
  }

  lemma {:induction false} DropEmptyAppend(a: seq<string>, b: seq<string>)
    ensures DropEmpty(a + b) == DropEmpty(a) + DropEmpty(b)
    decreases |a|
  {
    if a != [] {
      assert (a + b)[0] == a[0];
      assert (a + b)[1..] == a[1..] + b;
      DropEmptyAppend(a[1..], b);
    } else {
      assert a + b == b;
    }
  }

  /** The lines of two texts joined by a newline are the lines of each. */
  lemma LinesAppend(x: string, y: string)
    ensures Lines(x + "\n" + y) == Lines(x) + Lines(y)
  {
    SplitAppend(x, y, '\n');
    assert x + "\n" + y == x + ['\n'] + y;
    NonBlankStrippedAppend(Split(x, '\n'), Split(y, '\n'));
  }

  /** Each piece of splitting whitespace is whitespace. */
  lemma {:induction false} SplitAllSpace(s: string, sep: char)
    requires AllSpace(s)
    ensures forall k :: 0 <= k < |Split(s, sep)| ==> AllSpace(Split(s, sep)[k])
  {
    if s != [] {
      SplitAllSpace(s[1..], sep);
      var rest := Split(s[1..], sep);
      if s[0] != sep {
        assert forall m :: 0 <= m < |rest[0]| ==> ([s[0]] + rest[0])[m + 1] == rest[0][m];
      }
    }
  }

  lemma NonBlankStrippedOfBlanks(pieces: seq<string>)
    requires forall k :: 0 <= k < |pieces| ==> AllSpace(pieces[k])
    ensures NonBlankStripped(pieces) == []
  {
    DropEmptyOfEmpties(StripEach(pieces));
  }

  lemma {:induction false} DropEmptyOfEmpties(lines: seq<string>)
    requires forall k :: 0 <= k < |lines| ==> lines[k] == []
    ensures DropEmpty(lines) == []
  {
    if lines != [] {
      DropEmptyOfEmpties(lines[1..]);
    }
  }

  /** Whitespace-only text has no lines. */
  lemma LinesOfBlank(b: string)
    requires AllSpace(b)
    ensures Lines(b) == []
  {
    SplitAllSpace(b, '\n');
    NonBlankStrippedOfBlanks(Split(b, '\n'));
  }

  /** A line without a line break is considered when, and only when, it is not blank, and then in stripped form. */
  lemma LinesOfOneLine(line: string)
    requires '\n' !in line
    ensures Lines(line) == if Strip(line) == [] then [] else [Strip(line)]
  {
    SplitJoin([line], '\n');
  }

  /** A blank or whitespace-only line never produces a row and leaves the rows of the others as they are. */
  lemma BlankLineIgnored(x: string, blank: string, y: string, eval: string -> Option<Value>)
    requires AllSpace(blank)
    ensures RowsOfText(x + "\n" + blank + "\n" + y, eval) == RowsOfText(x, eval) + RowsOfText(y, eval)
  {
    LinesAppend(x + "\n" + blank, y);
    LinesAppend(x, blank);
    LinesOfBlank(blank);
    assert Lines(x + "\n" + blank) == Lines(x);
    RowsAppend(Lines(x), Lines(y), eval);
  }

  /**
   * A malformed line (one that fails to evaluate, or evaluates to something
   * other than a dict) contributes nothing and does not stop later lines from
   * producing their rows.
   */
  lemma MalformedLineSkipped(x: string, line: string, y: string, eval: string -> Option<Value>)
    requires '\n' !in line
    requires eval(Strip(line)).None? || !eval(Strip(line)).value.Dict?
    ensures RowsOfText(x + "\n" + line + "\n" + y, eval) == RowsOfText(x, eval) + RowsOfText(y, eval)
  {
    LinesAppend(x + "\n" + line, y);
    LinesAppend(x, line);
    LinesOfOneLine(line);
    if Strip(line) == [] {
      assert Lines(x + "\n" + line) == Lines(x);
      RowsAppend(Lines(x), Lines(y), eval);
    } else {
      assert Lines(x + "\n" + line + "\n" + y) == Lines(x) + [Strip(line)] + Lines(y);
      RowsSkipLine(Lines(x), Strip(line), Lines(y), eval);
    }
  }

  /** The rows of a text without a line break: those of its stripped form, if it is not blank. */
  lemma RowsOfOneLine(line: string, eval: string -> Option<Value>)
    requires '\n' !in line
    ensures RowsOfText(line, eval) == if Strip(line) == [] then [] else RowOf(eval(Strip(line)))
  {
    LinesOfOneLine(line);
    if Strip(line) != [] {
      assert Rows([Strip(line)], eval) == RowOf(eval(Strip(line))) + Rows([], eval);
    }
  }

  /** A single malformed line gives no row. */
  lemma MalformedLineAlone(line: string, eval: string -> Option<Value>)
    requires '\n' !in line
    requires eval(Strip(line)).None? || !eval(Strip(line)).value.Dict?
    ensures RowsOfText(line, eval) == []
  {
    RowsOfOneLine(line, eval);
  }

  /** A single dict literal line gives exactly the row of its value. */
  lemma DictLineAlone(line: string, eval: string -> Option<Value>, row: Value)
    requires '\n' !in line && Strip(line) != []
    requires eval(Strip(line)) == Some(row) && row.Dict?
    ensures RowsOfText(line, eval) == [row]
  {
    RowsOfOneLine(line, eval);
  }

  /** A malformed line followed by a dict literal line gives exactly the one row of the dict literal. */
  lemma MalformedThenDict(bad: string, good: string, eval: string -> Option<Value>, row: Value)
    requires '\n' !in bad && '\n' !in good && Strip(good) != []
    requires eval(Strip(bad)).None? || !eval(Strip(bad)).value.Dict?
    requires eval(Strip(good)) == Some(row) && row.Dict?
    ensures RowsOfText(bad + "\n" + good, eval) == [row]
  {
    LinesAppend(bad, good);
    RowsAppend(Lines(bad), Lines(good), eval);
    MalformedLineAlone(bad, eval);
    DictLineAlone(good, eval, row);
  }

  /** `s` can be written as one line that `parse_extracted_text` considers as it is. */
  predicate OneLine(s: string) {
    s != [] && Stripped(s) && '\n' !in s
  }

  /**
   * Each row printed with `repr`, one line per row, in row order. The source has
   * no such printer: it only builds the input of `ReparseRows`.
   */
  function Printed(rows: seq<Value>, repr: Value -> string): (lines: seq<string>)
    ensures |lines| == |rows|
    ensures forall k :: 0 <= k < |rows| ==> lines[k] == repr(rows[k])
  {
    seq(|rows|, k requires 0 <= k < |rows| => repr(rows[k]))
  }

  /**
   * Re-parsing is idempotent: writing each row on a line of its own with a
   * printer that `eval` reads back gives the same rows again.
   */
  lemma ReparseRows(rows: seq<Value>, repr: Value -> string, eval: string -> Option<Value>)
    requires forall k :: 0 <= k < |rows| ==> rows[k].Dict? && OneLine(repr(rows[k])) && eval(repr(rows[k])) == Some(rows[k])
    ensures RowsOfText(Join(Printed(rows, repr), '\n'), eval) == rows
  {
    var lines := Printed(rows, repr);
    if rows == [] {
      assert Split([], '\n') == [[]];
    } else {
      assert forall k :: 0 <= k < |lines| ==> OneLine(lines[k]);
      SplitJoin(lines, '\n');
      assert Split(Join(lines, '\n'), '\n') == lines;
      NonBlankStrippedOfLines(lines);
      RowsOfPrinted(rows, lines, eval);
    }
  }

  lemma NonBlankStrippedOfLines(lines: seq<string>)
    requires forall k :: 0 <= k < |lines| ==> lines[k] != [] && Stripped(lines[k])
    ensures NonBlankStripped(lines) == lines
  {
    forall k | 0 <= k < |lines|
      ensures StripEach(lines)[k] == lines[k]
    {
      StripStripped(lines[k]);
    }
    assert StripEach(lines) == lines;
    DropEmptyOfNonEmpty(lines);
  }

  lemma {:induction false} DropEmptyOfNonEmpty(lines: seq<string>)
    requires forall k :: 0 <= k < |lines| ==> lines[k] != []
    ensures DropEmpty(lines) == lines
  {
    if lines != [] {
      DropEmptyOfNonEmpty(lines[1..]);
    }
  }

  lemma {:induction false} RowsOfPrinted(rows: seq<Value>, lines: seq<string>, eval: string -> Option<Value>)
    requires |lines| == |rows|
    requires forall k :: 0 <= k < |rows| ==> rows[k].Dict? && eval(lines[k]) == Some(rows[k])
    ensures Rows(lines, eval) == rows
  {
    if rows != [] {
      RowsOfPrinted(rows[1..], lines[1..], eval);
    }
  }

  // ---------------------------------------------------------------------------
  // build_json_structure
  // ---------------------------------------------------------------------------

  /** conversion.py `build_json_structure`: the project/file/metadata envelope as a dict literal. */
  function BuildJsonStructure(tableRows: Value, projectId: Value, projectName: Value, projectDescription: Value,
                              fileId: Value, fileName: Value, fileFormat: Value, scannedFileName: Value,
                              metadataId: Value, tabledataId: Value): (r: Value)
    ensures Keys(r) == [Str("project"), Str("file"), Str("metadata")]
  {
    Dict([
      (Str("project"), Dict([
        (Str("id"), projectId),
        (Str("name"), projectName),
        (Str("description"), projectDescription)])),
      (Str("file"), Dict([
        (Str("id"), fileId),
        (Str("name"), fileName),
        (Str("format"), fileFormat),
        (Str("scanned_file_name"), scannedFileName)])),
      (Str("metadata"), Dict([
        (Str("id"), metadataId),
        (Str("tabledata_id"), tabledataId),
        (Str("rows"), tableRows)]))])
  }

  /** The section dicts of the envelope, as the envelope's lookups find them. */
  lemma EnvelopeSectionsFound(tableRows: Value, projectId: Value, projectName: Value, projectDescription: Value,
                              fileId: Value, fileName: Value, fileFormat: Value, scannedFileName: Value,
                              metadataId: Value, tabledataId: Value)
    ensures var r := BuildJsonStructure(tableRows, projectId, projectName, projectDescription, fileId, fileName,
                                        fileFormat, scannedFileName, metadataId, tabledataId);
            && Get(r, "project") == Some(Dict([(Str("id"), projectId), (Str("name"), projectName),
                                               (Str("description"), projectDescription)]))
            && Get(r, "file") == Some(Dict([(Str("id"), fileId), (Str("name"), fileName), (Str("format"), fileFormat),
                                            (Str("scanned_file_name"), scannedFileName)]))
            && Get(r, "metadata") == Some(Dict([(Str("id"), metadataId), (Str("tabledata_id"), tabledataId),
                                                (Str("rows"), tableRows)]))
  {
    var r := BuildJsonStructure(tableRows, projectId, projectName, projectDescription, fileId, fileName,
                                fileFormat, scannedFileName, metadataId, tabledataId);
    LookupThree(r.entries[0], r.entries[1], r.entries[2]);
  }

  /**
   * The envelope has exactly the sections project, file and metadata, in that
   * order, and each section exactly its fixed keys, however the arguments are
   * chosen (an empty row list included).
   */
  lemma EnvelopeShape(tableRows: Value, projectId: Value, projectName: Value, projectDescription: Value,
                      fileId: Value, fileName: Value, fileFormat: Value, scannedFileName: Value,
                      metadataId: Value, tabledataId: Value)
    ensures var r := BuildJsonStructure(tableRows, projectId, projectName, projectDescription, fileId, fileName,
                                        fileFormat, scannedFileName, metadataId, tabledataId);
            && Keys(r) == [Str("project"), Str("file"), Str("metadata")]
            && Get(r, "project").Some? && Get(r, "file").Some? && Get(r, "metadata").Some?
            && Keys(Get(r, "project").value) == [Str("id"), Str("name"), Str("description")]
            && Keys(Get(r, "file").value) == [Str("id"), Str("name"), Str("format"), Str("scanned_file_name")]
            && Keys(Get(r, "metadata").value) == [Str("id"), Str("tabledata_id"), Str("rows")]
  {
    EnvelopeSectionsFound(tableRows, projectId, projectName, projectDescription, fileId, fileName,
                          fileFormat, scannedFileName, metadataId, tabledataId);
  }

  /** Every argument is found verbatim in its own slot, and `table_rows` unchanged under metadata.rows. */
  lemma EnvelopeSlots(tableRows: Value, projectId: Value, projectName: Value, projectDescription: Value,
                      fileId: Value, fileName: Value, fileFormat: Value, scannedFileName: Value,
                      metadataId: Value, tabledataId: Value)
    ensures var r := BuildJsonStructure(tableRows, projectId, projectName, projectDescription, fileId, fileName,
                                        fileFormat, scannedFileName, metadataId, tabledataId);
            && At(r, ["project", "id"]) == Some(projectId)
            && At(r, ["project", "name"]) == Some(projectName)
            && At(r, ["project", "description"]) == Some(projectDescription)
            && At(r, ["file", "id"]) == Some(fileId)
            && At(r, ["file", "name"]) == Some(fileName)
            && At(r, ["file", "format"]) == Some(fileFormat)
            && At(r, ["file", "scanned_file_name"]) == Some(scannedFileName)
            && At(r, ["metadata", "id"]) == Some(metadataId)
            && At(r, ["metadata", "tabledata_id"]) == Some(tabledataId)
            && At(r, ["metadata", "rows"]) == Some(tableRows)
  {
    var r := BuildJsonStructure(tableRows, projectId, projectName, projectDescription, fileId, fileName,
                                fileFormat, scannedFileName, metadataId, tabledataId);
    EnvelopeSectionsFound(tableRows, projectId, projectName, projectDescription, fileId, fileName,
                          fileFormat, scannedFileName, metadataId, tabledataId);
    var project, file, metadata := Get(r, "project").value, Get(r, "file").value, Get(r, "metadata").value;
    LookupThree(project.entries[0], project.entries[1], project.entries[2]);
    LookupFour(file.entries[0], file.entries[1], file.entries[2], file.entries[3]);
    LookupThree(metadata.entries[0], metadata.entries[1], metadata.entries[2]);
    AtPair(r, "project", "id");
    AtPair(r, "project", "name");
    AtPair(r, "project", "description");
    AtPair(r, "file", "id");
    AtPair(r, "file", "name");
    AtPair(r, "file", "format");
    AtPair(r, "file", "scanned_file_name");
    AtPair(r, "metadata", "id");
    AtPair(r, "metadata", "tabledata_id");
    AtPair(r, "metadata", "rows");
  }

  /** With no rows, the envelope still has all three sections and metadata.rows is the empty list. */
  lemma EnvelopeWithoutRows()
    ensures var r := BuildJsonStructure(List([]), Int(1), Str("P"), Str("D"), Int(2), Str("f.json"), Str("json"),
                                        Str("f_scan.json"), Int(3), Int(4));
            r == Dict([
              (Str("project"), Dict([(Str("id"), Int(1)), (Str("name"), Str("P")), (Str("description"), Str("D"))])),
              (Str("file"), Dict([(Str("id"), Int(2)), (Str("name"), Str("f.json")), (Str("format"), Str("json")),
                                  (Str("scanned_file_name"), Str("f_scan.json"))])),
              (Str("metadata"), Dict([(Str("id"), Int(3)), (Str("tabledata_id"), Int(4)), (Str("rows"), List([]))]))])
  {
  }
}

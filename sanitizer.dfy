/**
 * `clean_json_response` (main.py): isolate the JSON payload in a model reply.
 * Markdown fences are deleted, the text from the first `{` through the last
 * `}` is cut out, parsed and re-serialised. `json.loads` and
 * `json.dumps(..., indent=2)` are foreign calls and appear as the parameters
 * `parse` and `dump`. `parse` is None when the text is rejected; the source
 * catches only `JSONDecodeError`, and the model folds every other error of
 * `json.loads` into that None as well.
 */
module Sanitizer {
  import opened Wrappers
  import opened PyStr

  const JsonFence: string := "```json"
  const Fence: string := "```"

  /** Noise around the payload: no brace and no backtick. */
  predicate Inert(s: string) {
    '{' !in s && '}' !in s && '`' !in s
  }

  /** `i` is where the first `{` of `t` is and `j` where its last `}` is. */
  predicate Braces(t: string, i: nat, j: nat) {
    i < |t| && t[i] == '{' && '{' !in t[..i] && j < |t| && t[j] == '}' && '}' !in t[j + 1..]
  }

  /** `parse` then `dump`, None when `parse` rejects the text. */
  function Reserialise<V>(jsonStr: string, parse: string -> Option<V>, dump: V -> string): (r: Option<string>)
    ensures r.None? <==> parse(jsonStr).None?
    ensures r.Some? ==> r.value == dump(parse(jsonStr).value)
  {
    match parse(jsonStr)
    case None => None
    case Some(obj) => Some(dump(obj))
  }

  // ---------------------------------------------------------------------------
  // Fence removal: text.replace("```json", "").replace("```", "")
  // ---------------------------------------------------------------------------

  /** Deletes every ```json marker and then every ``` marker; the text never grows. */
  function StripFences(text: string): (r: string)
    ensures |r| <= |text|
  {
    Erase(Erase(text, JsonFence), Fence)
  }

  /** After fence removal no ``` marker is left anywhere in the text. */
  lemma StripFencesLeavesNoFence(text: string)
    ensures !Contains(StripFences(text), Fence)
  {
    EraseFenceLeavesNone(Erase(text, JsonFence));
  }

  /** A ```json marker contains a ``` marker. */
  lemma JsonFenceHasFence(text: string)
    ensures Contains(text, JsonFence) ==> Contains(text, Fence)
  {
    if Contains(text, JsonFence) {
      var i: nat :| OccursAt(text, JsonFence, i);
      assert text[i..i + 3] == text[i..i + 7][..3];
      assert OccursAt(text, Fence, i);
    }
  }

  /** Text with no ``` in it passes through fence removal unchanged. */
  lemma StripFencesUnfenced(text: string)
    requires !Contains(text, Fence)
    ensures StripFences(text) == text
  {
    JsonFenceHasFence(text);
    EraseAbsent(text, JsonFence);
    EraseAbsent(text, Fence);
  }

  /** Fence removal only deletes: every character it leaves was in the text. */
  lemma StripFencesKeepsOnly(text: string, c: char)
    ensures c in StripFences(text) ==> c in text
  {
    EraseKeepsOnly(text, JsonFence, c);
    EraseKeepsOnly(Erase(text, JsonFence), Fence, c);
  }

  /** Braces, quotes and line breaks are not part of a marker. */
  lemma OutsideJsonFence()
    ensures '{' !in JsonFence && '}' !in JsonFence && '"' !in JsonFence && '\n' !in JsonFence
  {
  }

  /** A character that is not part of ```json (a brace, say) splits fence removal in two. */
  lemma StripFencesAround(x: string, c: char, y: string)
    requires c !in JsonFence
    ensures StripFences(x + [c] + y) == StripFences(x) + [c] + StripFences(y)
  {
    EraseAround(x, c, y, JsonFence);
    EraseAround(Erase(x, JsonFence), c, Erase(y, JsonFence), Fence);
  }

  /** Inert text not beginning with a letter of "json" cannot finish a ```json marker begun before it. */
  lemma InertCannotFinishJsonFence(q: string)
    requires Inert(q) && (q == [] || q[0] !in "json")
    ensures NoStraddle(q, JsonFence)
  {
    forall k | 0 < k < |JsonFence|
      ensures !(JsonFence[k..] <= q)
    {
      if q != [] {
        assert JsonFence[k..][0] == JsonFence[k];
        assert JsonFence[k] == '`' || JsonFence[k] in "json";
      }
    }
  }

  /** Inert text cannot finish a ``` marker begun before it. */
  lemma InertCannotFinishFence(q: string)
    requires Inert(q)
    ensures NoStraddle(q, Fence)
  {
    forall k | 0 < k < |Fence|
      ensures !(Fence[k..] <= q)
    {
      if q != [] {
        assert Fence[k..][0] == '`';
      }
    }
  }

  /**
   * Inert noise on either side survives fence removal unchanged, provided the
   * trailing noise does not begin with a letter of "json" (which could
   * complete a ```json marker left open at the end of the text).
   */
  lemma StripFencesAroundNoise(p: string, text: string, q: string)
    requires Inert(p) && Inert(q) && (q == [] || q[0] !in "json")
    ensures StripFences(p + text + q) == p + StripFences(text) + q
  {
    InertCannotFinishJsonFence(q);
    InertCannotFinishFence(q);
    var once := Erase(text, JsonFence);
    var twice := Erase(once, Fence);
    calc {
      Erase(p + text + q, JsonFence);
      { assert p + text + q == p + (text + q); ErasePrefix(p, text + q, JsonFence); }
      p + Erase(text + q, JsonFence);
      { EraseSuffix(text, q, JsonFence); }
      p + (once + q);
    }
    calc {
      Erase(p + (once + q), Fence);
      { ErasePrefix(p, once + q, Fence); }
      p + Erase(once + q, Fence);
      { EraseSuffix(once, q, Fence); }
      p + (twice + q);
    }
    assert p + (twice + q) == p + twice + q;
  }

  // ---------------------------------------------------------------------------
  // The brace span: text[text.find("{"):text.rfind("}") + 1]
  // ---------------------------------------------------------------------------

  /** `start = text.find("{")`, `end = text.rfind("}") + 1`; None when `start == -1 or end == 0`, else the slice. */
  function Span(t: string): (r: Option<string>)
    ensures r.None? <==> ('{' !in t || '}' !in t)
  {
    var start := Find(t, '{');
    var end := RFind(t, '}') + 1;
    if start == -1 || end == 0 then None
    else Some(Slice(t, start, end))
  }

  /** `find` and `rfind` land on the first `{` and on the last `}`. */
  lemma BracesLocated(t: string, i: nat, j: nat)
    requires Braces(t, i, j)
    ensures Find(t, '{') == i && RFind(t, '}') == j
  {
  }

  /**
   * With the first `{` at `i` and the last `}` at `j >= i`, the span is the
   * contiguous substring from `i` through `j`: it begins with `{` and ends
   * with `}`.
   */
  lemma SpanBetweenBraces(t: string, i: nat, j: nat)
    requires Braces(t, i, j) && i <= j
    ensures Span(t) == Some(t[i..j + 1])
    ensures Span(t).value[0] == '{' && Span(t).value[|Span(t).value| - 1] == '}'
  {
    BracesLocated(t, i, j);
  }

  /**
   * When the last `}` lies before the first `{`, the span is empty (a slice
   * with reversed bounds), not missing.
   */
  lemma SpanInvertedBraces(t: string, i: nat, j: nat)
    requires Braces(t, i, j) && j < i
    ensures Span(t) == Some([])
  {
    BracesLocated(t, i, j);
  }

  /** Brace-free text before and after does not change the span. */
  lemma SpanIgnoresNoise(p: string, t: string, q: string)
    requires '{' !in p && '}' !in p && '{' !in q && '}' !in q
    ensures Span(p + t + q) == Span(t)
  {
    if '{' in t && '}' in t {
      var i, j := Find(t, '{'), RFind(t, '}');
      SpanShift(p, t, q, i, j);
    } else {
      var u := p + t + q;
      assert '{' !in u || '}' !in u;
    }
  }

  lemma SpanShift(p: string, t: string, q: string, i: nat, j: nat)
    requires '{' !in p && '}' !in q && Braces(t, i, j)
    ensures Span(p + t + q) == Span(t)
  {
    BracesShift(p, t, q, i, j);
    if i <= j {
      SpanBetweenBraces(t, i, j);
      SpanShiftOrdered(p, t, q, i, j);
    } else {
      SpanInvertedBraces(t, i, j);
      SpanInvertedBraces(p + t + q, |p| + i, |p| + j);
    }
  }

  lemma SpanShiftOrdered(p: string, t: string, q: string, i: nat, j: nat)
    requires Braces(p + t + q, |p| + i, |p| + j) && i <= j < |t|
    ensures Span(p + t + q) == Some(t[i..j + 1])
  {
    SpanBetweenBraces(p + t + q, |p| + i, |p| + j);
    SliceShift(p, t, q, i, j + 1);
  }

  lemma SliceShift(p: string, t: string, q: string, a: nat, b: nat)
    requires a <= b <= |t|
    ensures (p + t + q)[|p| + a..|p| + b] == t[a..b]
  {
  }

  /** The first and last brace of `t` are the first and last of `t` between brace-free noise. */
  lemma BracesShift(p: string, t: string, q: string, i: nat, j: nat)
    requires '{' !in p && '}' !in q && Braces(t, i, j)
    ensures Braces(p + t + q, |p| + i, |p| + j)
  {
    var u := p + t + q;
    assert u[..|p| + i] == p + t[..i];
    assert u[|p| + j + 1..] == t[j + 1..] + q;
    assert u[|p| + i] == t[i] && u[|p| + j] == t[j];
  }

  // ---------------------------------------------------------------------------
  // clean_json_response
  // ---------------------------------------------------------------------------

  /**
   * main.py `clean_json_response`: None when the fence-free text lacks a `{`
   * or a `}`, or when `parse` rejects the span; otherwise `dump` of the parsed
   * span.
   */
  function CleanJsonResponse<V>(text: string, parse: string -> Option<V>, dump: V -> string): (r: Option<string>)
    ensures '{' !in StripFences(text) ==> r.None?
    ensures '}' !in StripFences(text) ==> r.None?
  {
    var t := StripFences(text);
    match Span(t)
    case None => None
    case Some(jsonStr) => Reserialise(jsonStr, parse, dump)
  }

  /**
   * The whole outcome: with the first `{` of the fence-free text at `i` and
   * its last `}` at `j`, the result is None exactly when `parse` rejects the
   * text from `i` through `j` (empty when `j < i`), and otherwise `dump` of
   * what `parse` returned.
   */
  lemma CleanJsonBetweenBraces<V>(text: string, parse: string -> Option<V>, dump: V -> string, i: nat, j: nat)
    requires Braces(StripFences(text), i, j)
    ensures var t := StripFences(text);
            var jsonStr := if i <= j then t[i..j + 1] else [];
            CleanJsonResponse(text, parse, dump) == (if parse(jsonStr).None? then None else Some(dump(parse(jsonStr).value)))
  {
    if i <= j {
      SpanBetweenBraces(StripFences(text), i, j);
    } else {
      SpanInvertedBraces(StripFences(text), i, j);
    }
  }

  /**
   * When the last `}` comes before the first `{`, the cut-out text is empty
   * and the result is decided by `parse("")` alone: None for a parser that,
   * like `json.loads`, rejects the empty document.
   */
  lemma CleanJsonInvertedBraces<V>(text: string, parse: string -> Option<V>, dump: V -> string, i: nat, j: nat)
    requires Braces(StripFences(text), i, j) && j < i
    ensures CleanJsonResponse(text, parse, dump) == Reserialise([], parse, dump)
    ensures parse([]).None? ==> CleanJsonResponse(text, parse, dump).None?
  {
    SpanInvertedBraces(StripFences(text), i, j);
  }

  /**
   * Commentary before the payload and after it does not change the result,
   * whatever it holds, as long as it has no brace: fence removal cannot join
   * across a brace, so the span is cut from the same fence-free braces.
   */
  lemma CleanJsonIgnoresNoise<V>(p: string, text: string, q: string, parse: string -> Option<V>, dump: V -> string)
    requires '{' !in p && '}' !in p && '{' !in q && '}' !in q
    ensures CleanJsonResponse(p + text + q, parse, dump) == CleanJsonResponse(text, parse, dump)
  {
    var u := p + text + q;
    if '{' in text && '}' in text {
      var i, k := Find(text, '{'), RFind(text, '}');
      if i < k {
        NoiseOrdered(p, text, q, i, k);
      } else {
        NoiseInverted(p, text, q, i, k);
      }
    } else {
      StripFencesKeepsOnly(text, '{');
      StripFencesKeepsOnly(text, '}');
      StripFencesKeepsOnly(u, '{');
      StripFencesKeepsOnly(u, '}');
    }
  }

  /** Noise case of `CleanJsonIgnoresNoise` where the first `{` comes before the last `}`. */
  lemma NoiseOrdered(p: string, text: string, q: string, i: int, k: int)
    requires '{' !in p && '}' !in q
    requires i == Find(text, '{') && k == RFind(text, '}') && 0 <= i < k
    ensures Span(StripFences(p + text + q)) == Span(StripFences(text))
  {
    var a, b, c := text[..i], text[i..k + 1], text[k + 1..];
    OrderedPieces(text, i, k);
    var w := Some(['{'] + StripFences(b[1..|b| - 1]) + ['}']);
    assert Span(StripFences(text)) == w by {
      CutTwice(text, i, k + 1);
      NoiseBeforeBraces(a, b, c);
    }
    assert Span(StripFences(p + text + q)) == w by {
      CutTwice(text, i, k + 1);
      Regroup(p, a, b, c, q);
      NoiseBeforeBraces(p + a, b, c + q);
    }
  }

  /** The pieces of `NoiseOrdered`: the payload runs from the first `{` through the last `}`. */
  lemma OrderedPieces(t: string, i: int, k: int)
    requires 0 <= i < k < |t| && t[i] == '{' && t[k] == '}'
    ensures var b := t[i..k + 1];
            |b| >= 2 && b[0] == '{' && b[|b| - 1] == '}'
  {
  }

  /** Noise case of `CleanJsonIgnoresNoise` where the last `}` comes before the first `{`. */
  lemma NoiseInverted(p: string, text: string, q: string, i: int, k: int)
    requires '{' !in p && '}' !in q
    requires i == Find(text, '{') && k == RFind(text, '}') && 0 <= k < i
    ensures Span(StripFences(p + text + q)) == Span(StripFences(text))
  {
    var a, b, c := text[..k], text[k..i + 1], text[i + 1..];
    InvertedPieces(text, k, i);
    CutTwice(text, k, i + 1);
    Regroup(p, a, b, c, q);
    NoiseAroundInverted(a, b, c);
    NoiseAroundInverted(p + a, b, c + q);
  }

  /** The pieces of `NoiseInverted`: no `{` before the last `{` and no `}` after the first `}`. */
  lemma InvertedPieces(t: string, k: int, i: int)
    requires 0 <= k < i < |t|
    requires '{' !in t[..i] && '}' !in t[k + 1..]
    ensures var b := t[k..i + 1];
            b[0] == t[k] && b[|b| - 1] == t[i] &&
            '{' !in t[..k] && '{' !in b[..|b| - 1] && '}' !in b[1..]
  {
    var b := t[k..i + 1];
    assert t[..k] == t[..i][..k];
    assert b[..|b| - 1] == t[..i][k..];
    assert b[1..] == t[k + 1..][..i - k];
  }

  lemma CutTwice(t: string, i: nat, j: nat)
    requires i <= j <= |t|
    ensures t == t[..i] + t[i..j] + t[j..]
  {
  }

  lemma Regroup(p: string, a: string, b: string, c: string, q: string)
    ensures p + (a + b + c) + q == (p + a) + b + (c + q)
  {
  }

  lemma Bracketed(b: string)
    requires |b| >= 2
    ensures b == [b[0]] + b[1..|b| - 1] + [b[|b| - 1]]
  {
  }

  /** With no `{` before and no `}` after, the span of the fence-free text is the fence-free bracketed part. */
  lemma NoiseBeforeBraces(x: string, b: string, y: string)
    requires |b| >= 2 && b[0] == '{' && b[|b| - 1] == '}'
    requires '{' !in x && '}' !in y
    ensures Span(StripFences(x + b + y)) == Some(['{'] + StripFences(b[1..|b| - 1]) + ['}'])
  {
    var m := b[1..|b| - 1];
    Bracketed(b);
    StripFencesKeepsOnly(x, '{');
    StripFencesKeepsOnly(y, '}');
    assert x + b + y == x + ['{'] + (m + ['}'] + y);
    OutsideJsonFence();
    StripFencesAround(x, '{', m + ['}'] + y);
    StripFencesAround(m, '}', y);
    var w := StripFences(m);
    assert StripFences(x) + ['{'] + (w + ['}'] + StripFences(y)) == StripFences(x) + (['{'] + w + ['}']) + StripFences(y);
    SpanOfBracketed(StripFences(x), w, StripFences(y));
  }

  /** With the last `}` before the first `{`, the span of the fence-free text is empty. */
  lemma NoiseAroundInverted(x: string, b: string, y: string)
    requires |b| >= 2 && b[0] == '}' && b[|b| - 1] == '{'
    requires '{' !in x && '{' !in b[..|b| - 1] && '}' !in b[1..] && '}' !in y
    ensures Span(StripFences(x + b + y)) == Some([])
  {
    var m := b[1..|b| - 1];
    Bracketed(b);
    assert '{' !in m && '}' !in m by {
      assert m == b[..|b| - 1][1..] && m == b[1..][..|b| - 2];
    }
    StripFencesKeepsOnly(x, '{');
    StripFencesKeepsOnly(m, '{');
    StripFencesKeepsOnly(m, '}');
    StripFencesKeepsOnly(y, '}');
    assert x + b + y == x + ['}'] + (m + ['{'] + y);
    OutsideJsonFence();
    StripFencesAround(x, '}', m + ['{'] + y);
    StripFencesAround(m, '{', y);
    var w := StripFences(m);
    assert StripFences(x) + ['}'] + (w + ['{'] + StripFences(y)) == StripFences(x) + (['}'] + w + ['{']) + StripFences(y);
    SpanOfInverted(StripFences(x), w, StripFences(y));
  }

  /** The span of text whose first `{` and last `}` enclose `w`, in that order. */
  lemma SpanOfBracketed(l: string, w: string, r: string)
    requires '{' !in l && '}' !in r
    ensures Span(l + (['{'] + w + ['}']) + r) == Some(['{'] + w + ['}'])
  {
    var t := ['{'] + w + ['}'];
    assert Braces(t, 0, |w| + 1) by {
      assert t[..0] == [] && t[|w| + 2..] == [];
    }
    SpanShift(l, t, r, 0, |w| + 1);
    SpanBetweenBraces(t, 0, |w| + 1);
    assert t[0..|w| + 2] == t;
  }

  /** The span is empty when the last `}` comes before the first `{`, whatever brace-free text lies between. */
  lemma SpanOfInverted(l: string, w: string, r: string)
    requires '{' !in l && '{' !in w && '}' !in w && '}' !in r
    ensures Span(l + (['}'] + w + ['{']) + r) == Some([])
  {
    var t := ['}'] + w + ['{'];
    assert Braces(t, |w| + 1, 0) by {
      assert t[..|w| + 1] == ['}'] + w && t[1..] == w + ['{'];
    }
    SpanShift(l, t, r, |w| + 1, 0);
    SpanInvertedBraces(t, |w| + 1, 0);
  }

  /** Removing the fences of a ```json block whose body has no backtick leaves exactly the body. */
  lemma StripFencesOfBlock(body: string)
    requires '`' !in body
    ensures StripFences(JsonFence + body + Fence) == body
  {
    var text := JsonFence + body + Fence;
    calc {
      Erase(text, JsonFence);
      { assert JsonFence <= text; assert text[|JsonFence|..] == body + Fence; }
      Erase(body + Fence, JsonFence);
      { ErasePrefix(body, Fence, JsonFence); }
      body + Erase(Fence, JsonFence);
      { assert Erase(Fence, JsonFence) == Fence; }
      body + Fence;
    }
    calc {
      Erase(body + Fence, Fence);
      { ErasePrefix(body, Fence, Fence); }
      body + Erase(Fence, Fence);
      { assert Erase(Fence, Fence) == []; }
      body;
    }
  }

  /** Removing the fences of a ```json block whose body sits on lines of its own and holds no ``` leaves the lines. */
  lemma StripFencesOfFencedLines(s: string)
    requires !Contains(s, Fence)
    ensures StripFences(JsonFence + "\n" + s + "\n" + Fence) == "\n" + s + "\n"
  {
    var text := JsonFence + "\n" + s + "\n" + Fence;
    assert JsonFence <= text;
    assert text[|JsonFence|..] == "\n" + s + ['\n'] + Fence;
    FencedLinesFirstPass(s);
    FencedLinesSecondPass(s);
  }

  lemma FencedLinesFirstPass(s: string)
    requires !Contains(s, Fence)
    ensures Erase("\n" + s + ['\n'] + Fence, JsonFence) == "\n" + s + ['\n'] + Fence
  {
    JsonFenceHasFence(s);
    EraseAbsent(s, JsonFence);
    assert "\n" + s == [] + ['\n'] + s;
    EraseAround([], '\n', s, JsonFence);
    EraseAround("\n" + s, '\n', Fence, JsonFence);
    assert Erase(Fence, JsonFence) == Fence;
  }

  lemma FencedLinesSecondPass(s: string)
    requires !Contains(s, Fence)
    ensures Erase("\n" + s + ['\n'] + Fence, Fence) == "\n" + s + "\n"
  {
    EraseAbsent(s, Fence);
    assert "\n" + s == [] + ['\n'] + s;
    EraseAround([], '\n', s, Fence);
    EraseAround("\n" + s, '\n', Fence, Fence);
    assert Erase(Fence, Fence) == [];
  }

  /** An object on a line of its own is the span of that line. */
  lemma SpanOfObjectLine(s: string)
    requires s != [] && s[0] == '{' && s[|s| - 1] == '}'
    ensures Span("\n" + s + "\n") == Some(s)
  {
    assert Braces(s, 0, |s| - 1) by {
      assert s[..0] == [] && s[|s|..] == [];
    }
    SpanShift("\n", s, "\n", 0, |s| - 1);
    SpanBetweenBraces(s, 0, |s| - 1);
    assert s[0..|s|] == s;
  }

  /**
   * A JSON object in a ```json fence, on lines of its own, comes out as the
   * re-serialisation of the object, provided the object holds no ```.
   */
  lemma CleanJsonFencedObject<V>(s: string, parse: string -> Option<V>, dump: V -> string)
    requires s != [] && s[0] == '{' && s[|s| - 1] == '}' && !Contains(s, Fence)
    ensures CleanJsonResponse(JsonFence + "\n" + s + "\n" + Fence, parse, dump) == Reserialise(s, parse, dump)
  {
    StripFencesOfFencedLines(s);
    SpanOfObjectLine(s);
  }

  /**
   * When `parse` reads back whatever `dump` writes, parsing the cleaned
   * response of a fenced JSON object holding no ``` gives what parsing the
   * object gives.
   */
  lemma CleanJsonFencedRoundTrip<V>(s: string, parse: string -> Option<V>, dump: V -> string)
    requires s != [] && s[0] == '{' && s[|s| - 1] == '}' && !Contains(s, Fence)
    requires parse(s).Some? && parse(dump(parse(s).value)) == parse(s)
    ensures var r := CleanJsonResponse(JsonFence + "\n" + s + "\n" + Fence, parse, dump);
            r.Some? && parse(r.value) == parse(s)
  {
    CleanJsonFencedObject(s, parse, dump);
  }

  /**
   * The markers are deleted wherever they are, inside JSON string values too:
   * the object `{"a":"```"}` is cut down to `{"a":""}` before it is parsed.
   */
  lemma FenceInsideStringLost()
    ensures StripFences("{\"a\":\"```\"}") == "{\"a\":\"\"}"
  {
    var head := "{\"a\":";
    QuotedLiterals(head);
    StripQuotedFence(head);
  }

  /** The two literals of `FenceInsideStringLost`, cut at their quotes. */
  lemma QuotedLiterals(head: string)
    requires head == "{\"a\":"
    ensures "{\"a\":\"```\"}" == head + ['"'] + (Fence + ['"'] + "}")
    ensures "{\"a\":\"\"}" == head + ['"'] + ([] + ['"'] + "}")
  {
  }

  /** Fence removal deletes a ``` that sits between two quotes after a fence-free head. */
  lemma StripQuotedFence(head: string)
    requires head == "{\"a\":"
    ensures StripFences(head + ['"'] + (Fence + ['"'] + "}")) == head + ['"'] + ([] + ['"'] + "}")
  {
    OutsideJsonFence();
    StripFencesAround(head, '"', Fence + ['"'] + "}");
    StripFencesAround(Fence, '"', "}");
    AbsentHead(head, Fence);
    StripFencesUnfenced(head);
    assert StripFences(Fence) == [] by {
      assert Erase(Fence, JsonFence) == Fence;
    }
    assert StripFences("}") == "}";
  }
}

/**
 * The Python `str` operations the post-processing relies on, over `string`
 * (a sequence of Unicode scalar values): `replace` with an empty replacement,
 * `find` and `rfind` of a single character, slicing with non-negative bounds,
 * `split` on one separator character and argument-less `strip`.
 */
module PyStr {

  /** `marker` occurs in `s` starting at index `i`. */
  predicate OccursAt(s: string, marker: string, i: nat) {
    i + |marker| <= |s| && s[i..i + |marker|] == marker
  }

  /** `marker in s`, Python's substring test. */
  ghost predicate Contains(s: string, marker: string) {
    exists i: nat :: OccursAt(s, marker, i)
  }

  // ---------------------------------------------------------------------------
  // s.replace(marker, "")
  // ---------------------------------------------------------------------------

  /**
   * `s.replace(marker, "")`: scans from the left, deletes each occurrence of
   * `marker` and resumes after it, so deleted occurrences never overlap.
   * The empty marker (which Python treats specially) is never used here.
   */
  function Erase(s: string, marker: string): (r: string)
    requires marker != []
    ensures |r| <= |s|
    decreases |s|
  {
    if s == [] then []
    else if marker <= s then Erase(s[|marker|..], marker)
    else [s[0]] + Erase(s[1..], marker)
  }

  lemma ContainsCons(c: char, s: string, marker: string)
    requires marker != []
    ensures Contains([c] + s, marker) <==> (marker <= [c] + s || Contains(s, marker))
  {
    var t := [c] + s;
    if Contains(t, marker) && !(marker <= t) {
      var i: nat :| OccursAt(t, marker, i);
      assert i != 0;
      ConsSlice(c, s, i - 1, |marker|);
      assert OccursAt(s, marker, i - 1);
    }
    if Contains(s, marker) {
      var i: nat :| OccursAt(s, marker, i);
      ConsSlice(c, s, i, |marker|);
      assert OccursAt(t, marker, i + 1);
    }
    if marker <= t {
      assert t[0..|marker|] == marker;
      assert OccursAt(t, marker, 0);
    }
  }

  lemma ConsSlice(c: char, s: string, i: nat, n: nat)
    requires i + n <= |s|
    ensures ([c] + s)[i + 1..i + 1 + n] == s[i..i + n]
  {
    var t := [c] + s;
    assert forall j :: i + 1 <= j < i + 1 + n ==> t[j] == s[j - 1];
  }

  /** Text without the marker passes through `replace` unchanged. */
  lemma {:induction false} EraseAbsent(s: string, marker: string)
    requires marker != []
    ensures !Contains(s, marker) ==> Erase(s, marker) == s
    decreases |s|
  {
    if s != [] && !Contains(s, marker) {
      assert s == [s[0]] + s[1..];
      ContainsCons(s[0], s[1..], marker);
      EraseAbsent(s[1..], marker);
    }
  }

  /** A prefix holding no first character of the marker is copied through untouched. */
  lemma {:induction false} ErasePrefix(p: string, t: string, marker: string)
    requires marker != [] && marker[0] !in p
    ensures Erase(p + t, marker) == p + Erase(t, marker)
    decreases |p|
  {
    if p != [] {
      assert (p + t)[0] == p[0];
      assert (p + t)[1..] == p[1..] + t;
      assert marker[0] !in p[1..] by {
        assert forall c :: c in p[1..] ==> c in p;
      }
      ErasePrefix(p[1..], t, marker);
      assert !(marker <= p + t);
      assert Erase(p + t, marker) == [p[0]] + Erase(p[1..] + t, marker);
      assert p == [p[0]] + p[1..];
    } else {
      assert p + t == t;
    }
  }

  /** No occurrence of `marker` can start in `t` and end inside `q`. */
  predicate NoStraddle(q: string, marker: string) {
    forall k :: 0 < k < |marker| ==> !(marker[k..] <= q)
  }

  /** A marker longer than `t` that prefixes `t + q` has its tail after `|t|` prefixing `q`. */
  lemma PrefixTail(marker: string, t: string, q: string)
    ensures |t| < |marker| && marker <= t + q ==> marker[|t|..] <= q
  {
    if |t| < |marker| && marker <= t + q {
      var k := |t|;
      assert forall m :: 0 <= m < |marker| - k ==> marker[k..][m] == (t + q)[k + m] == q[m];
    }
  }

  /** A string free of the marker's first character does not contain the marker. */
  lemma AbsentHead(q: string, marker: string)
    requires marker != [] && marker[0] !in q
    ensures !Contains(q, marker)
  {
    forall i: nat | i + |marker| <= |q|
      ensures !OccursAt(q, marker, i)
    {
      assert q[i..i + |marker|][0] == q[i];
    }
  }

  /**
   * A suffix without the marker's first character is copied through untouched,
   * provided it cannot complete an occurrence begun at the end of `t`.
   */
  lemma {:induction false} EraseSuffix(t: string, q: string, marker: string)
    requires marker != [] && marker[0] !in q && NoStraddle(q, marker)
    ensures Erase(t + q, marker) == Erase(t, marker) + q
    decreases |t|
  {
    if t == [] {
      assert t + q == q;
      AbsentHead(q, marker);
      EraseAbsent(q, marker);
    } else if marker <= t {
      assert (t + q)[..|marker|] == t[..|marker|];
      assert (t + q)[|marker|..] == t[|marker|..] + q;
      EraseSuffix(t[|marker|..], q, marker);
    } else {
      // no occurrence starts at the head of t + q: within t there is none, and
      // one reaching into q would need a tail of the marker to prefix q
      if |t| >= |marker| {
        assert (t + q)[..|marker|] == t[..|marker|];
      } else {
        PrefixTail(marker, t, q);
      }
      assert !(marker <= t + q);
      assert (t + q)[0] == t[0];
      assert (t + q)[1..] == t[1..] + q;
      EraseSuffix(t[1..], q, marker);
    }
  }

  /** `replace(marker, "")` only deletes: every character of the result was in the input. */
  lemma {:induction false} EraseKeepsOnly(s: string, marker: string, c: char)
    requires marker != []
    ensures c in Erase(s, marker) ==> c in s
    decreases |s|
  {
    if s != [] {
      if marker <= s {
        EraseKeepsOnly(s[|marker|..], marker, c);
        assert c in s[|marker|..] ==> c in s;
      } else {
        EraseKeepsOnly(s[1..], marker, c);
        assert c in s[1..] ==> c in s;
      }
    }
  }

  /**
   * A character that does not occur in the marker splits the erasure: no
   * occurrence of the marker can straddle it, so each side is erased on its own.
   */
  lemma {:induction false} EraseAround(x: string, c: char, y: string, marker: string)
    requires marker != [] && c !in marker
    ensures Erase(x + [c] + y, marker) == Erase(x, marker) + [c] + Erase(y, marker)
    decreases |x|
  {
    var s := x + [c] + y;
    if x == [] {
      assert s == [c] + y;
      assert s[0] == c && s[1..] == y;
    } else if marker <= s {
      assert s[|x|] == c;
      assert |marker| <= |x|;
      AroundSlices(x, c, y, |marker|);
      assert marker <= x;
      EraseAround(x[|marker|..], c, y, marker);
    } else {
      assert !(marker <= x) by {
        if |marker| <= |x| {
          AroundSlices(x, c, y, |marker|);
        }
      }
      AroundSlices(x, c, y, 1);
      EraseAround(x[1..], c, y, marker);
    }
  }

  /** Cutting `x + [c] + y` within `x`. */
  lemma AroundSlices(x: string, c: char, y: string, n: nat)
    requires 0 < n <= |x|
    ensures (x + [c] + y)[..n] == x[..n] && (x + [c] + y)[n..] == x[n..] + [c] + y
    ensures (x + [c] + y)[0] == x[0]
  {
  }

  /** If `t` does not start with the marker's first character, neither does its erasure. */
  lemma EraseKeepsHead(t: string, marker: string)
    requires marker != [] && t != [] && t[0] != marker[0]
    ensures Erase(t, marker) != [] && Erase(t, marker)[0] == t[0]
  {
  }

  /** Deleting every ``` leaves no ``` behind: a deletion never joins two backtick runs into a new one. */
  lemma {:induction false} EraseFenceLeavesNone(s: string)
    ensures !Contains(Erase(s, "```"), "```")
    decreases |s|
  {
    var fence := "```";
    if s == [] {
      assert !OccursAt([], fence, 0);
    } else if fence <= s {
      EraseFenceLeavesNone(s[3..]);
    } else {
      var rest := Erase(s[1..], fence);
      assert Erase(s, fence) == [s[0]] + rest;
      EraseFenceLeavesNone(s[1..]);
      ContainsCons(s[0], rest, fence);
      // the kept head character does not start a new fence with what follows
      if s[0] == '`' {
        if |s| == 1 {
          assert rest == [];
        } else if s[1] != '`' {
          EraseKeepsHead(s[1..], fence);
        } else if |s| == 2 {
          assert rest == [s[1]];
        } else {
          assert s[2] != '`';
          assert !(fence <= s[1..]);
          assert rest == [s[1]] + Erase(s[2..], fence);
          EraseKeepsHead(s[2..], fence);
        }
      }
      assert !(fence <= [s[0]] + rest);
    }
  }

  // ---------------------------------------------------------------------------
  // s.find(c), s.rfind(c), s[lo:hi]
  // ---------------------------------------------------------------------------

  /** `s.find(c)` for a one-character needle: the lowest index holding `c`, or -1. */
  function Find(s: string, c: char): (r: int)
    ensures r == -1 <==> c !in s
    ensures r != -1 ==> 0 <= r < |s| && s[r] == c && c !in s[..r]
  {
    if s == [] then -1
    else if s[0] == c then 0
    else
      var k := Find(s[1..], c);
      assert s == [s[0]] + s[1..];
      if k == -1 then -1
      else
        assert s[..k + 1] == [s[0]] + s[1..][..k];
        k + 1
  }

  /** `s.rfind(c)` for a one-character needle: the highest index holding `c`, or -1. */
  function RFind(s: string, c: char): (r: int)
    ensures r == -1 <==> c !in s
    ensures r != -1 ==> 0 <= r < |s| && s[r] == c && c !in s[r + 1..]
  {
    if s == [] then -1
    else if s[|s| - 1] == c then |s| - 1
    else
      var init := s[..|s| - 1];
      assert s == init + [s[|s| - 1]];
      var k := RFind(init, c);
      assert k != -1 ==> s[k + 1..] == init[k + 1..] + [s[|s| - 1]];
      k
  }

  /** `s[lo:hi]` for non-negative bounds: both are clamped to the length, and a reversed range is empty. */
  function Slice(s: string, lo: nat, hi: nat): (r: string)
    ensures lo <= hi <= |s| ==> r == s[lo..hi]
    ensures lo <= |s| <= hi ==> r == s[lo..]
    ensures hi <= lo ==> r == []
    ensures |s| <= lo ==> r == []
  {
    var a := if lo < |s| then lo else |s|;
    var b := if hi < |s| then hi else |s|;
    if a <= b then s[a..b] else []
  }

  // ---------------------------------------------------------------------------
  // s.split(sep) and its inverse sep.join(pieces)
  // ---------------------------------------------------------------------------

  /** `s.split(sep)` for a one-character separator: the separator-free pieces between separators, at least one. */
  function Split(s: string, sep: char): (r: seq<string>)
    ensures |r| >= 1
    ensures forall k :: 0 <= k < |r| ==> sep !in r[k]
  {
    if s == [] then [[]]
    else
      var rest := Split(s[1..], sep);
      if s[0] == sep then [[]] + rest
      else [[s[0]] + rest[0]] + rest[1..]
  }

  /** `sep.join(pieces)`. */
  function Join(pieces: seq<string>, sep: char): string
  {
    if pieces == [] then []
    else if |pieces| == 1 then pieces[0]
    else pieces[0] + [sep] + Join(pieces[1..], sep)
  }

  /** Joining the pieces of a split gives back the text. */
  lemma {:induction false} JoinSplit(s: string, sep: char)
    ensures Join(Split(s, sep), sep) == s
  {
    if s != [] {
      var rest := Split(s[1..], sep);
      JoinSplit(s[1..], sep);
      if s[0] == sep {
        assert Split(s, sep) == [[]] + rest;
      } else {
        var r := Split(s, sep);
        assert r == [[s[0]] + rest[0]] + rest[1..];
        if |rest| == 1 {
          assert Join(rest, sep) == rest[0];
        } else {
          assert Join(rest, sep) == rest[0] + [sep] + Join(rest[1..], sep);
          assert r[1..] == rest[1..];
        }
      }
    }
  }

  /** Splitting the join of separator-free pieces gives back the pieces. */
  lemma {:induction false} SplitJoin(pieces: seq<string>, sep: char)
    requires |pieces| >= 1
    requires forall k :: 0 <= k < |pieces| ==> sep !in pieces[k]
    ensures Split(Join(pieces, sep), sep) == pieces
    decreases |pieces|, |pieces[0]|
  {
    var p := pieces[0];
    if p == [] {
      if |pieces| > 1 {
        SplitJoin(pieces[1..], sep);
        assert Join(pieces, sep) == [sep] + Join(pieces[1..], sep);
        assert ([sep] + Join(pieces[1..], sep))[1..] == Join(pieces[1..], sep);
      }
    } else {
      var tail := [p[1..]] + pieces[1..];
      assert tail[1..] == pieces[1..];
      assert forall k :: 0 <= k < |tail| ==> sep !in tail[k] by {
        assert forall c :: c in p[1..] ==> c in p;
      }
      SplitJoin(tail, sep);
      var j := Join(pieces, sep);
      if |pieces| == 1 {
        assert j == p && Join(tail, sep) == p[1..];
      } else {
        assert j == [p[0]] + Join(tail, sep) by {
          assert Join(tail, sep) == p[1..] + [sep] + Join(pieces[1..], sep);
          assert p == [p[0]] + p[1..];
        }
      }
      assert j[0] == p[0] && j[1..] == Join(tail, sep);
      assert p == [p[0]] + p[1..];
    }
  }

  /** Joining two runs of pieces puts one separator between their joins. */
  lemma {:induction false} JoinAppend(a: seq<string>, b: seq<string>, sep: char)
    requires |a| >= 1 && |b| >= 1
    ensures Join(a + b, sep) == Join(a, sep) + [sep] + Join(b, sep)
    decreases |a|
  {
    if |a| == 1 {
      assert (a + b)[1..] == b;
    } else {
      assert (a + b)[1..] == a[1..] + b;
      JoinAppend(a[1..], b, sep);
    }
  }

  /** Splitting text glued by a separator is splitting the two parts. */
  lemma SplitAppend(x: string, y: string, sep: char)
    ensures Split(x + [sep] + y, sep) == Split(x, sep) + Split(y, sep)
  {
    var px, py := Split(x, sep), Split(y, sep);
    JoinSplit(x, sep);
    JoinSplit(y, sep);
    JoinAppend(px, py, sep);
    SplitJoin(px + py, sep);
  }

  // ---------------------------------------------------------------------------
  // s.strip()
  // ---------------------------------------------------------------------------

  /** The characters Python's `str.isspace` accepts, which argument-less `strip` removes. */
  predicate IsSpace(c: char) {
    ('\t' <= c <= '\r') || ('\U{001C}' <= c <= ' ') || c == '\U{0085}' || c == '\U{00A0}'
    || c == '\U{1680}' || ('\U{2000}' <= c <= '\U{200A}') || c == '\U{2028}' || c == '\U{2029}'
    || c == '\U{202F}' || c == '\U{205F}' || c == '\U{3000}'
  }

  predicate AllSpace(s: string) {
    forall k :: 0 <= k < |s| ==> IsSpace(s[k])
  }

  /** Neither end of `s` is whitespace: `strip` has nothing to remove. */
  predicate Stripped(s: string) {
    s == [] || (!IsSpace(s[0]) && !IsSpace(s[|s| - 1]))
  }

  lemma AllSpacePrepend(c: char, t: string)
    requires IsSpace(c) && AllSpace(t)
    ensures AllSpace([c] + t)
  {
    forall k | 0 <= k < |[c] + t|
      ensures IsSpace(([c] + t)[k])
    {
      if k > 0 {
        assert ([c] + t)[k] == t[k - 1];
      }
    }
  }

  lemma AllSpaceAppend(t: string, c: char)
    requires AllSpace(t) && IsSpace(c)
    ensures AllSpace(t + [c])
  {
    forall k | 0 <= k < |t + [c]|
      ensures IsSpace((t + [c])[k])
    {
      if k < |t| {
        assert (t + [c])[k] == t[k];
      }
    }
  }

  /** `s.lstrip()`: the suffix left after the leading whitespace. */
  function TrimLeft(s: string): (r: string)
    ensures |r| <= |s| && r == s[|s| - |r|..]
    ensures AllSpace(s[..|s| - |r|])
    ensures r == [] || !IsSpace(r[0])
  {
    if s != [] && IsSpace(s[0]) then
      var r := TrimLeft(s[1..]);
      assert s[..|s| - |r|] == [s[0]] + s[1..][..|s| - 1 - |r|];
      AllSpacePrepend(s[0], s[1..][..|s| - 1 - |r|]);
      r
    else s
  }

  /** `s.rstrip()`: the prefix left before the trailing whitespace. */
  function TrimRight(s: string): (r: string)
    ensures |r| <= |s| && r == s[..|r|]
    ensures AllSpace(s[|r|..])
    ensures r == [] || !IsSpace(r[|r| - 1])
  {
    if s != [] && IsSpace(s[|s| - 1]) then
      var r := TrimRight(s[..|s| - 1]);
      assert s[|r|..] == s[..|s| - 1][|r|..] + [s[|s| - 1]];
      AllSpaceAppend(s[..|s| - 1][|r|..], s[|s| - 1]);
      r
    else s
  }

  lemma SplitAt(t: string, n: nat)
    requires n <= |t|
    ensures t == t[..n] + t[n..]
  {
  }

  lemma Reassociate(s: string, a: string, left: string, r: string, b: string)
    requires s == a + left && left == r + b
    ensures s == a + r + b
  {
  }

  /**
   * `s.strip()`: the part of `s` between its leading and trailing whitespace;
   * it is empty exactly when `s` is all whitespace.
   */
  function Strip(s: string): (r: string)
    ensures Stripped(r)
    ensures |r| <= |s|
    ensures r == [] <==> AllSpace(s)
  {
    var left := TrimLeft(s);
    var r := TrimRight(left);
    assert r == [] ==> AllSpace(s) by {
      if r == [] {
        assert s == s[..|s| - |left|] + left;
        assert AllSpace(left) by { assert left[0..] == left; }
      }
    }
    assert r != [] ==> !AllSpace(s) by {
      if r != [] {
        assert r[0] == left[0] == s[|s| - |left|];
      }
    }
    r
  }

  /** `strip` cuts whitespace from the two ends and nothing else: `s` is that whitespace around `Strip(s)`. */
  lemma StripTrimsEnds(s: string)
    ensures exists a, b :: AllSpace(a) && AllSpace(b) && s == a + Strip(s) + b
  {
    var left := TrimLeft(s);
    var r := TrimRight(left);
    var a, b := s[..|s| - |left|], left[|r|..];
    assert s == a + r + b by {
      SplitAt(s, |a|);
      SplitAt(left, |r|);
      Reassociate(s, a, left, r, b);
    }
    assert r == Strip(s);
    assert AllSpace(a) && AllSpace(b);
  }

  /** `strip` only removes characters: everything it keeps was in the input. */
  lemma StripKeepsOnly(s: string, c: char)
    ensures c in Strip(s) ==> c in s
  {
    var left := TrimLeft(s);
    var r := TrimRight(left);
    if c in r {
      InPrefix(left, |r|, c);
      InSuffix(s, |s| - |left|, c);
    }
  }

  lemma InPrefix(s: string, n: nat, c: char)
    requires n <= |s| && c in s[..n]
    ensures c in s
  {
    var k :| 0 <= k < n && s[..n][k] == c;
    assert s[k] == c;
  }

  lemma InSuffix(s: string, n: nat, c: char)
    requires n <= |s| && c in s[n..]
    ensures c in s
  {
    var k :| 0 <= k < |s| - n && s[n..][k] == c;
    assert s[n + k] == c;
  }

  /** Text with no whitespace at either end is left untouched by `strip`. */
  lemma StripStripped(s: string)
    requires Stripped(s)
    ensures Strip(s) == s
  {
  }

  /** `strip` is idempotent. */
  lemma StripIdempotent(s: string)
    ensures Strip(Strip(s)) == Strip(s)
  {
    StripStripped(Strip(s));
  }
}

/**
 The JavaScript string operations the plugin relies on, with JavaScript's
 semantics written out: `startsWith`, `includes`, `repeat`, `substring`,
 `lastIndexOf`, `split` and `join` on a one-character separator, and
 `parseInt` of a single character. Strings are sequences of characters.
 */
module Strings {
  import opened Options

  /** A JavaScript number, as far as the plugin's arithmetic needs one. */
  datatype Num = NaN | Int(v: int)

  /** `s.startsWith(p)` */
  predicate StartsWith(s: string, p: string)
  {
    |p| <= |s| && s[..|p|] == p
  }

  /** `s.endsWith(p)` */
  predicate EndsWith(s: string, p: string)
  {
    |p| <= |s| && s[|s| - |p|..] == p
  }

  /** A concatenation starts with its first part and continues with the second. */
  lemma PrefixRemainder(a: string, b: string)
    ensures StartsWith(a + b, a)
    ensures (a + b)[|a|..] == b
  {
    assert (a + b)[..|a|] == a;
  }

  /** `s.includes(p)`: `p` occurs at some offset of `s` */
  predicate Includes(s: string, p: string)
  {
    exists k :: 0 <= k <= |s| && StartsWith(s[k..], p)
  }

  /** `n` copies of `c` */
  function Repeat(c: char, n: nat): (r: string)
    ensures |r| == n
    ensures forall i :: 0 <= i < n ==> r[i] == c
  {
    if n == 0 then "" else [c] + Repeat(c, n - 1)
  }

  /** `String(c).repeat(count)`: a NaN count repeats zero times, a negative
      count throws a RangeError (None). */
  function RepeatNum(c: char, count: Num): (r: Option<string>)
    ensures r.None? <==> count.Int? && count.v < 0
    ensures r.Some? && count.Int? ==> r.value == Repeat(c, count.v)
    ensures r.Some? && count.NaN? ==> r.value == ""
  {
    match count
    case NaN => Some("")
    case Int(v) => if v < 0 then None else Some(Repeat(c, v))
  }

  /** `n - 1` on a JavaScript number */
  function Decrement(n: Num): Num
  {
    match n
    case NaN => NaN
    case Int(v) => Int(v - 1)
  }

  /** `s[i]`: undefined outside the string */
  function CharAt(s: string, i: int): Option<char>
  {
    if 0 <= i < |s| then Some(s[i]) else None
  }

  /** `parseInt` of a one-character string (or of `undefined`) */
  function ParseIntChar(c: Option<char>): (n: Num)
    ensures n.Int? <==> c.Some? && '0' <= c.value <= '9'
    ensures n.Int? ==> 0 <= n.v <= 9 && n.v == c.value as int - '0' as int
  {
    match c
    case Some(d) => if '0' <= d <= '9' then Int(d as int - '0' as int) else NaN
    case None => NaN
  }

  /** `i` moved into the range 0 to `n` */
  function Clamp(i: int, n: nat): (r: nat)
    ensures r <= n
  {
    if i < 0 then 0 else if i > n then n else i
  }

  /** `s.substring(start, end)`: both bounds are clamped into the string and
      swapped when the start lies after the end. */
  function Substring(s: string, start: int, end: int): (r: string)
    ensures 0 <= start <= end <= |s| ==> r == s[start..end]
    ensures 0 <= end <= start <= |s| ==> r == s[end..start]
    ensures start <= 0 <= end <= |s| ==> r == s[..end]
    ensures end <= 0 && start <= 0 ==> r == ""
    ensures |r| <= |s|
  {
    var a := Clamp(start, |s|);
    var b := Clamp(end, |s|);
    if a <= b then s[a..b] else s[b..a]
  }

  /** `s.lastIndexOf(c)`: -1 when `c` does not occur */
  function LastIndexOf(s: string, c: char): (r: int)
    ensures -1 <= r < |s|
    ensures r == -1 <==> c !in s
    ensures 0 <= r ==> s[r] == c && c !in s[r + 1..]
  {
    if |s| == 0 then -1
    else if s[|s| - 1] == c then |s| - 1
    else
      var r := LastIndexOf(s[..|s| - 1], c);
      assert s == s[..|s| - 1] + [s[|s| - 1]];
      assert 0 <= r ==> s[r + 1..] == s[..|s| - 1][r + 1..] + [s[|s| - 1]];
      r
  }

  /** The last occurrence of `c` is the one with no `c` after it. */
  lemma LastIndexAt(s: string, c: char, k: nat)
    requires k < |s| && s[k] == c && c !in s[k + 1..]
    ensures LastIndexOf(s, c) == k
  {
  }

  /** The longest prefix of `s` that contains no character of `stops` */
  function TakeUntil(s: string, stops: set<char>): (r: string)
    ensures StartsWith(s, r)
    ensures forall i :: 0 <= i < |r| ==> r[i] !in stops
    ensures |r| < |s| ==> s[|r|] in stops
  {
    if |s| == 0 || s[0] in stops then "" else [s[0]] + TakeUntil(s[1..], stops)
  }

  /** The characters at which a regular expression's `.` stops */
  const LineTerminators: set<char> := {'\n', '\r', '\U{2028}', '\U{2029}'}

  /** `s.indexOf(p)`: the first offset at which `p` occurs, -1 when it does not */
  function IndexOf(s: string, p: string): (r: int)
    ensures -1 <= r <= |s|
    ensures r == -1 <==> !Includes(s, p)
    ensures 0 <= r ==> StartsWith(s[r..], p)
    ensures 0 <= r ==> forall j :: 0 <= j < r ==> !StartsWith(s[j..], p)
    decreases |s|
  {
    if StartsWith(s, p) then
      assert s[0..] == s;
      0
    else if |s| == 0 then
      -1
    else
      var r := IndexOf(s[1..], p);
      IncludesTail(s, p);
      if r == -1 then -1
      else
        FirstMatchTail(s, p, r);
        r + 1
  }

  /** A first match at `r` in the tail of `s`, with none at offset 0, is a
      first match at `r + 1` in `s`. */
  lemma FirstMatchTail(s: string, p: string, r: nat)
    requires r < |s|
    requires !StartsWith(s, p)
    requires StartsWith(s[1..][r..], p)
    requires forall j :: 0 <= j < r ==> !StartsWith(s[1..][j..], p)
    ensures StartsWith(s[r + 1..], p)
    ensures forall j :: 0 <= j < r + 1 ==> !StartsWith(s[j..], p)
  {
    assert s[1..][r..] == s[r + 1..];
    forall j | 0 <= j < r + 1
      ensures !StartsWith(s[j..], p)
    {
      if j == 0 {
        assert s[0..] == s;
      } else {
        assert s[1..][j - 1..] == s[j..];
      }
    }
  }

  /** An occurrence of `p` in `s` is at offset 0 or in the rest of `s`. */
  lemma IncludesTail(s: string, p: string)
    requires |s| >= 1
    ensures Includes(s, p) <==> StartsWith(s, p) || Includes(s[1..], p)
  {
    if Includes(s, p) && !StartsWith(s, p) {
      var k :| 0 <= k <= |s| && StartsWith(s[k..], p);
      assert k != 0 by {
        assert s[0..] == s;
      }
      assert s[1..][k - 1..] == s[k..];
    }
    if Includes(s[1..], p) {
      var k :| 0 <= k <= |s[1..]| && StartsWith(s[1..][k..], p);
      assert s[1..][k..] == s[k + 1..];
    }
    if StartsWith(s, p) {
      assert s[0..] == s;
    }
  }

  /** `s.replace(p, rep)` with a plain-string pattern: the first occurrence
      of `p` replaced by `rep`, `s` itself when `p` does not occur. */
  function ReplaceFirst(s: string, p: string, rep: string): (r: string)
    ensures !Includes(s, p) ==> r == s
    ensures StartsWith(s, p) ==> r == rep + s[|p|..]
  {
    var i := IndexOf(s, p);
    if i < 0 then s
    else
      assert s[0..] == s;
      s[..i] + rep + s[i + |p|..]
  }

  /** `s.split(sep)` for a one-character separator: the pieces between
      separators, always at least one (`"".split(sep)` is `[""]`). */
  function Split(s: string, sep: char): (r: seq<string>)
    ensures |r| >= 1
    ensures forall i :: 0 <= i < |r| ==> sep !in r[i]
  {
    if |s| == 0 then [""]
    else if s[0] == sep then [""] + Split(s[1..], sep)
    else
      var rest := Split(s[1..], sep);
      [[s[0]] + rest[0]] + rest[1..]
  }

  /** `ls.join(sep)` */
  function Join(ls: seq<string>, sep: char): string
  {
    if |ls| == 0 then ""
    else if |ls| == 1 then ls[0]
    else ls[0] + [sep] + Join(ls[1..], sep)
  }

  /** `s.split(" ", 2)[1]`: the text between the first and the second space,
      undefined (None) when `s` has no space. */
  function SecondToken(s: string): (r: Option<string>)
    ensures r.None? <==> ' ' !in s
  {
    var parts := Split(s, ' ');
    SplitCount(s, ' ');
    if |parts| >= 2 then Some(parts[1]) else None
  }

  /** The token is the text after the first space, up to the next space or
      the end of the line. */
  lemma SecondTokenValue(s: string)
    ensures var r := SecondToken(s);
      r.Some? ==> var i := IndexOf(s, " ");
      && 0 <= i < |s| && s[i] == ' '
      && ' ' !in r.value && StartsWith(s[i + 1..], r.value)
      && (i + 1 + |r.value| == |s| || s[i + 1 + |r.value|] == ' ')
      && r.value == TakeUntil(s[i + 1..], {' '})
  {
    if ' ' in s {
      SecondTokenAt(s);
    }
  }

  /** The second piece of a split is the text after the first space, up to
      the next space or the end. */
  lemma SecondTokenAt(s: string)
    requires ' ' in s
    ensures var i := IndexOf(s, " ");
      && 0 <= i < |s| && s[i] == ' '
      && |Split(s, ' ')| >= 2
      && Split(s, ' ')[1] == TakeUntil(s[i + 1..], {' '})
  {
    var i := FirstSpace(s);
    var a, t := s[..i], s[i + 1..];
    assert s == a + [' '] + t;
    SplitAtSeparator(a, t, ' ');
    SplitFirstPiece(t, ' ');
  }

  /** `indexOf(" ")` finds the first space of a text that has one. */
  lemma FirstSpace(s: string) returns (i: int)
    requires ' ' in s
    ensures i == IndexOf(s, " ")
    ensures 0 <= i < |s| && s[i] == ' ' && ' ' !in s[..i]
  {
    var k :| 0 <= k < |s| && s[k] == ' ';
    assert StartsWith(s[k..], " ");
    i := IndexOf(s, " ");
    assert s[i..][..1] == " ";
    forall j | 0 <= j < i
      ensures s[..i][j] != ' '
    {
      assert !StartsWith(s[j..], " ");
      assert s[j..][..1] == [s[j]];
    }
  }

  /** The first piece of a split runs up to the first separator. */
  lemma {:induction false} SplitFirstPiece(t: string, sep: char)
    ensures Split(t, sep)[0] == TakeUntil(t, {sep})
    decreases |t|
  {
    if |t| > 0 && t[0] != sep {
      SplitFirstPiece(t[1..], sep);
    }
  }

  // ---------------------------------------------------------------------------
  // Split and join

  /** Splitting text that starts with a separator-free piece `a` glues `a`
      onto the first piece of the rest. */
  lemma {:induction false} SplitConcat(a: string, t: string, sep: char)
    requires sep !in a
    ensures Split(a + t, sep) == [a + Split(t, sep)[0]] + Split(t, sep)[1..]
    decreases |a|
  {
    if |a| == 0 {
      assert a + t == t;
      assert a + Split(t, sep)[0] == Split(t, sep)[0];
      assert [a + Split(t, sep)[0]] + Split(t, sep)[1..] == Split(t, sep);
    } else {
      assert (a + t)[0] == a[0];
      assert (a + t)[1..] == a[1..] + t;
      SplitConcat(a[1..], t, sep);
      assert [a[0]] + (a[1..] + Split(t, sep)[0]) == a + Split(t, sep)[0];
    }
  }

  /** Text without the separator splits into itself. */
  lemma SplitWithout(s: string, sep: char)
    requires sep !in s
    ensures Split(s, sep) == [s]
  {
    SplitConcat(s, "", sep);
    assert s + "" == s;
  }

  /** Text with a separator splits into at least two pieces. */
  lemma {:induction false} SplitSeparates(s: string, sep: char)
    requires sep in s
    ensures |Split(s, sep)| >= 2
    decreases |s|
  {
    if s[0] != sep {
      assert sep in s[1..] by {
        var k :| 0 <= k < |s| && s[k] == sep;
        assert s[1..][k - 1] == sep;
      }
      SplitSeparates(s[1..], sep);
    }
  }

  /** Text splits into more than one piece exactly when it holds the separator. */
  lemma SplitCount(s: string, sep: char)
    ensures |Split(s, sep)| >= 2 <==> sep in s
  {
    if sep in s {
      SplitSeparates(s, sep);
    } else {
      SplitWithout(s, sep);
    }
  }

  /** Splitting at a separator right after a separator-free piece `a`. */
  lemma SplitAtSeparator(a: string, t: string, sep: char)
    requires sep !in a
    ensures Split(a + [sep] + t, sep) == [a] + Split(t, sep)
  {
    assert a + [sep] + t == a + ([sep] + t);
    SplitConcat(a, [sep] + t, sep);
    assert ([sep] + t)[1..] == t;
    assert Split([sep] + t, sep) == [""] + Split(t, sep);
    assert a + "" == a;
  }

  /** Splitting text that begins with some separator-free lines gives those
      lines, then the lines of the rest. */
  lemma {:induction false} SplitAfterLines(pre: seq<string>, t: string, sep: char)
    requires |pre| >= 1
    requires forall i :: 0 <= i < |pre| ==> sep !in pre[i]
    ensures Split(Join(pre, sep) + [sep] + t, sep) == pre + Split(t, sep)
    decreases |pre|
  {
    if |pre| == 1 {
      SplitAtSeparator(pre[0], t, sep);
    } else {
      var rest := Join(pre[1..], sep);
      var tail := rest + [sep] + t;
      assert Join(pre, sep) == pre[0] + [sep] + rest;
      RegroupSeparated(pre[0], rest, t, sep);
      SplitAtSeparator(pre[0], tail, sep);
      SplitAfterLines(pre[1..], t, sep);
      ConsAppend(pre, Split(t, sep));
    }
  }

  /** Two separators in a row, grouped from the right */
  lemma RegroupSeparated(a: string, b: string, t: string, sep: char)
    ensures (a + [sep] + b) + [sep] + t == a + [sep] + (b + [sep] + t)
  {
  }

  /** A non-empty sequence put in front of another, element by element */
  lemma ConsAppend<T>(xs: seq<T>, ys: seq<T>)
    requires |xs| >= 1
    ensures [xs[0]] + (xs[1..] + ys) == xs + ys
  {
    assert xs == [xs[0]] + xs[1..];
  }

  /** Joining separator-free pieces and splitting again gives the pieces back. */
  lemma {:induction false} SplitJoin(ls: seq<string>, sep: char)
    requires |ls| >= 1
    requires forall i :: 0 <= i < |ls| ==> sep !in ls[i]
    ensures Split(Join(ls, sep), sep) == ls
    decreases |ls|
  {
    if |ls| == 1 {
      SplitWithout(ls[0], sep);
    } else {
      SplitJoin(ls[1..], sep);
      SplitAtSeparator(ls[0], Join(ls[1..], sep), sep);
      assert ls == [ls[0]] + ls[1..];
    }
  }

  /** Splitting and joining again gives the text back. */
  lemma {:induction false} JoinSplit(s: string, sep: char)
    ensures Join(Split(s, sep), sep) == s
    decreases |s|
  {
    if |s| == 0 {
    } else if s[0] == sep {
      JoinSplit(s[1..], sep);
      var r := Split(s[1..], sep);
      assert ([""] + r)[1..] == r;
      assert s == [sep] + s[1..];
    } else {
      JoinSplit(s[1..], sep);
      var r := Split(s[1..], sep);
      var pieces := [[s[0]] + r[0]] + r[1..];
      assert pieces[1..] == r[1..];
      if |r| == 1 {
        assert s == [s[0]] + s[1..];
      } else {
        assert Join(r, sep) == r[0] + [sep] + Join(r[1..], sep);
        assert s == [s[0]] + s[1..];
      }
    }
  }

  /** Joining a concatenation puts one separator between the two joins. */
  lemma {:induction false} JoinAppend(xs: seq<string>, ys: seq<string>, sep: char)
    requires |xs| >= 1 && |ys| >= 1
    ensures Join(xs + ys, sep) == Join(xs, sep) + [sep] + Join(ys, sep)
    decreases |xs|
  {
    if |xs| == 1 {
      assert (xs + ys)[1..] == ys;
    } else {
      JoinAppend(xs[1..], ys, sep);
      assert (xs + ys)[1..] == xs[1..] + ys;
    }
  }

  /** A piece that itself holds one separator joins like two pieces. */
  lemma JoinEmbedded(xs: seq<string>, a: string, b: string, ys: seq<string>, sep: char)
    ensures Join(xs + [a + [sep] + b] + ys, sep) == Join(xs + [a, b] + ys, sep)
  {
    var mid := Join([a, b], sep);
    assert mid == a + [sep] + b by {
      assert [a, b][1..] == [b];
      assert Join([b], sep) == b;
    }
    if |xs| == 0 && |ys| == 0 {
      assert xs + [a + [sep] + b] + ys == [mid];
      assert xs + [a, b] + ys == [a, b];
    } else if |xs| == 0 {
      assert xs + [a + [sep] + b] + ys == [mid] + ys;
      assert xs + [a, b] + ys == [a, b] + ys;
      JoinAppend([mid], ys, sep);
      JoinAppend([a, b], ys, sep);
    } else if |ys| == 0 {
      assert xs + [a + [sep] + b] + ys == xs + [mid];
      assert xs + [a, b] + ys == xs + [a, b];
      JoinAppend(xs, [mid], sep);
      JoinAppend(xs, [a, b], sep);
    } else {
      assert xs + [a + [sep] + b] + ys == xs + ([mid] + ys);
      assert xs + [a, b] + ys == xs + ([a, b] + ys);
      JoinAppend(xs, [mid] + ys, sep);
      JoinAppend(xs, [a, b] + ys, sep);
      JoinAppend([mid], ys, sep);
      JoinAppend([a, b], ys, sep);
    }
  }
}

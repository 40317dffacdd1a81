/**
  The Python string built-ins the application relies on, stated over `seq<char>`:
  `str.strip`, `str.split` (with and without a separator), `str.join`,
  `str.replace`, `str.lower`/`str.upper` (ASCII letters), `str.isdigit`,
  `int(...)`/`str(int)` (ASCII decimal grammar), `str.rsplit(sep, 1)` and
  `pathlib.PurePath.stem`.
 */
module Text {
  import opened Wrappers

  // ---------------------------------------------------------------------------
  // Characters
  // ---------------------------------------------------------------------------

  /** `c.isspace()` for the ASCII range: tab, newline, vertical tab, form feed,
      carriage return, the four information separators and the space. */
  predicate IsSpace(c: char)
  {
    9 <= c as int <= 13 || 28 <= c as int <= 32
  }

  predicate IsDigit(c: char)
  {
    '0' <= c <= '9'
  }

  predicate IsAsciiLetter(c: char)
  {
    'a' <= c <= 'z' || 'A' <= c <= 'Z'
  }

  function LowerChar(c: char): char
  {
    if 'A' <= c <= 'Z' then (c as int + 32) as char else c
  }

  function UpperChar(c: char): char
  {
    if 'a' <= c <= 'z' then (c as int - 32) as char else c
  }

  /** `s.lower()`, ASCII letters only. */
  function Lower(s: string): string
  {
    seq(|s|, i requires 0 <= i < |s| => LowerChar(s[i]))
  }

  /** `s.upper()`, ASCII letters only. */
  function Upper(s: string): string
  {
    seq(|s|, i requires 0 <= i < |s| => UpperChar(s[i]))
  }

  /** Upper-casing twice is upper-casing once. */
  lemma UpperIdempotent(s: string)
    ensures Upper(Upper(s)) == Upper(s)
  {
  }

  predicate HasSpace(s: string)
  {
    exists i :: 0 <= i < |s| && IsSpace(s[i])
  }

  // ---------------------------------------------------------------------------
  // Prefixes, suffixes, substrings
  // ---------------------------------------------------------------------------

  /** `s.startswith(p)`. */
  predicate StartsWith(s: string, p: string)
  {
    p <= s
  }

  /** `s.endswith(p)`. */
  predicate EndsWith(s: string, p: string)
  {
    |p| <= |s| && s[|s| - |p|..] == p
  }

  /** `sub in s`. */
  predicate Contains(s: string, sub: string)
    decreases |s|
  {
    sub <= s || (s != [] && Contains(s[1..], sub))
  }

  lemma {:induction false} ContainsChar(s: string, c: char)
    ensures Contains(s, [c]) <==> c in s
    decreases |s|
  {
    if s != [] {
      ContainsChar(s[1..], c);
      assert s == [s[0]] + s[1..];
    }
  }

  /** `sub` occurs in `s` starting at index `j`. */
  predicate OccursAt(s: string, sub: string, j: int)
  {
    0 <= j && j + |sub| <= |s| && s[j..j + |sub|] == sub
  }

  /** Largest `k <= from` at which `sub` occurs in `s`, or -1. */
  function LastIndexFrom(s: string, sub: string, from: int): (r: int)
    requires -1 <= from < |s|
    ensures -1 <= r <= from
    ensures r >= 0 ==> OccursAt(s, sub, r)
    ensures forall j :: r < j <= from ==> !OccursAt(s, sub, j)
    decreases from + 1
  {
    if from < 0 then -1
    else if OccursAt(s, sub, from) then from
    else LastIndexFrom(s, sub, from - 1)
  }

  /** `s.rfind(sub)`. */
  function LastIndexOf(s: string, sub: string): (r: int)
    ensures -1 <= r < |s|
    ensures r >= 0 ==> OccursAt(s, sub, r)
    ensures forall j :: r < j < |s| ==> !OccursAt(s, sub, j)
  {
    LastIndexFrom(s, sub, |s| - 1)
  }

  /** `sub in s` exactly when `sub` occurs in `s` at some index. */
  lemma {:induction false} ContainsOccurs(s: string, sub: string)
    ensures Contains(s, sub) <==> exists j :: OccursAt(s, sub, j)
    decreases |s|
  {
    if s == [] {
      if Contains(s, sub) {
        assert OccursAt(s, sub, 0);
      }
      forall j | OccursAt(s, sub, j) ensures sub <= s {
        assert j == 0;
      }
    } else {
      ContainsOccurs(s[1..], sub);
      if sub <= s {
        assert OccursAt(s, sub, 0);
      } else if Contains(s[1..], sub) {
        var j :| OccursAt(s[1..], sub, j);
        OccursShift(s, sub, j + 1);
      } else {
        forall j ensures !OccursAt(s, sub, j) {
          if j >= 1 {
            OccursShift(s, sub, j);
          }
        }
      }
    }
  }

  /** An occurrence after the first character is one in the rest of the text. */
  lemma OccursShift(s: string, sub: string, j: int)
    requires s != [] && j >= 1
    ensures OccursAt(s, sub, j) <==> OccursAt(s[1..], sub, j - 1)
  {
    var t := s[1..];
    assert |t| == |s| - 1;
    if j + |sub| <= |s| {
      var a, b := t[j - 1..j - 1 + |sub|], s[j..j + |sub|];
      forall i | 0 <= i < |sub| ensures a[i] == b[i] {
        assert t[j - 1 + i] == s[j + i];
      }
      assert a == b;
    }
  }

  lemma OccursAtChar(s: string, c: char, j: int)
    ensures OccursAt(s, [c], j) <==> 0 <= j < |s| && s[j] == c
  {
    if 0 <= j < |s| {
      assert s[j..j + 1] == [s[j]];
    }
  }

  // ---------------------------------------------------------------------------
  // Stripping
  // ---------------------------------------------------------------------------

  /** Number of leading whitespace characters. */
  function LeadingSpaces(s: string): (n: nat)
    ensures n <= |s|
    ensures forall i :: 0 <= i < n ==> IsSpace(s[i])
    ensures n < |s| ==> !IsSpace(s[n])
    decreases |s|
  {
    if s != [] && IsSpace(s[0]) then 1 + LeadingSpaces(s[1..]) else 0
  }

  /** Number of trailing whitespace characters. */
  function TrailingSpaces(s: string): (n: nat)
    ensures n <= |s|
    ensures forall i :: |s| - n <= i < |s| ==> IsSpace(s[i])
    ensures n < |s| ==> !IsSpace(s[|s| - n - 1])
    decreases |s|
  {
    if s != [] && IsSpace(s[|s| - 1]) then 1 + TrailingSpaces(s[..|s| - 1]) else 0
  }

  /** `s.lstrip()`. */
  function LStrip(s: string): string
  {
    s[LeadingSpaces(s)..]
  }

  /** `s.rstrip()`. */
  function RStrip(s: string): string
  {
    s[..|s| - TrailingSpaces(s)]
  }

  /** `s.strip()`. */
  function Strip(s: string): (r: string)
    ensures r != [] ==> !IsSpace(r[0]) && !IsSpace(r[|r| - 1])
    ensures |r| <= |s|
  {
    RStrip(LStrip(s))
  }

  /** Stripping leaves a string without surrounding whitespace unchanged. */
  lemma StripNoSpace(s: string)
    requires s == [] || (!IsSpace(s[0]) && !IsSpace(s[|s| - 1]))
    ensures Strip(s) == s
  {
  }

  /** A line without surrounding whitespace is what stripping the line and its newline gives. */
  lemma StripLineEnd(s: string)
    requires s != [] && !IsSpace(s[0]) && !IsSpace(s[|s| - 1])
    ensures Strip(s + "\n") == s
  {
    var t := s + "\n";
    assert t[0] == s[0];
    assert LeadingSpaces(t) == 0;
    assert t[..|t| - 1] == s;
    assert TrailingSpaces(s) == 0;
    assert TrailingSpaces(t) == 1;
  }

  /** `s.lstrip(c)` for one character `c`. */
  function LStripChar(s: string, c: char): (r: string)
    ensures |r| <= |s| && r == s[|s| - |r|..]
    ensures r != [] ==> r[0] != c
    decreases |s|
  {
    if s != [] && s[0] == c then LStripChar(s[1..], c) else s
  }

  // ---------------------------------------------------------------------------
  // Splitting and joining
  // ---------------------------------------------------------------------------

  /** Helper of `Split`: `cur` is the piece read so far. */
  function SplitFrom(s: string, sep: string, cur: string): (r: seq<string>)
    requires |sep| > 0
    ensures |r| >= 1
    decreases |s|
  {
    if s == [] then [cur]
    else if sep <= s then [cur] + SplitFrom(s[|sep|..], sep, [])
    else SplitFrom(s[1..], sep, cur + [s[0]])
  }

  /** `s.split(sep)`: the pieces between leftmost, non-overlapping occurrences of `sep`. */
  function Split(s: string, sep: string): (r: seq<string>)
    requires |sep| > 0
    ensures |r| >= 1
  {
    SplitFrom(s, sep, [])
  }

  /** `sep.join(xs)`. */
  function Join(xs: seq<string>, sep: string): string
  {
    if |xs| == 0 then ""
    else if |xs| == 1 then xs[0]
    else xs[0] + sep + Join(xs[1..], sep)
  }

  lemma JoinCons(x: string, xs: seq<string>, sep: string)
    requires |xs| > 0
    ensures Join([x] + xs, sep) == x + sep + Join(xs, sep)
  {
    assert ([x] + xs)[1..] == xs;
  }

  /** `sep` does not begin anywhere inside `x`, even when `x` is followed by `sep`:
      splitting `x + sep + rest` therefore cuts exactly after `x`. */
  ghost predicate SepFree(x: string, sep: string)
  {
    forall k :: 0 <= k < |x| ==> !(sep <= (x + sep)[k..])
  }

  lemma SepFreeChar(x: string, c: char)
    requires c !in x
    ensures SepFree(x, [c])
  {
    forall k | 0 <= k < |x|
      ensures !([c] <= (x + [c])[k..])
    {
      assert (x + [c])[k..][0] == x[k];
    }
  }

  lemma {:induction false} SplitFromSepFree(x: string, sep: string, rest: string, cur: string)
    requires |sep| > 0 && SepFree(x, sep)
    ensures SplitFrom(x + sep + rest, sep, cur) == [cur + x] + SplitFrom(rest, sep, [])
    decreases |x|
  {
    var s := x + sep + rest;
    if x == [] {
      assert s == sep + rest;
      assert sep <= s;
      assert s[|sep|..] == rest;
      assert cur + x == cur;
    } else {
      assert (x + sep)[0..] == x + sep;
      assert x + sep <= s;
      assert !(sep <= s);
      var x' := x[1..];
      forall k | 0 <= k < |x'|
        ensures !(sep <= (x' + sep)[k..])
      {
        assert (x' + sep)[k..] == (x + sep)[k + 1..];
      }
      assert s[1..] == x' + sep + rest;
      SplitFromSepFree(x', sep, rest, cur + [x[0]]);
      assert cur + [x[0]] + x' == cur + x;
    }
  }

  lemma {:induction false} SplitFromNoSep(x: string, sep: string, cur: string)
    requires |sep| > 0 && SepFree(x, sep)
    ensures SplitFrom(x, sep, cur) == [cur + x]
    decreases |x|
  {
    if x != [] {
      assert !(sep <= x) by {
        assert !(sep <= (x + sep)[0..]);
        assert (x + sep)[0..] == x + sep;
      }
      var x' := x[1..];
      forall k | 0 <= k < |x'|
        ensures !(sep <= (x' + sep)[k..])
      {
        assert (x' + sep)[k..] == (x + sep)[k + 1..];
      }
      SplitFromNoSep(x', sep, cur + [x[0]]);
      assert cur + [x[0]] + x' == cur + x;
    } else {
      assert cur + x == cur;
    }
  }

  /** Splitting a joined list gives the list back when no element lets the
      separator start early. */
  lemma {:induction false} SplitJoin(xs: seq<string>, sep: string)
    requires |sep| > 0 && |xs| > 0
    requires forall i :: 0 <= i < |xs| ==> SepFree(xs[i], sep)
    ensures Split(Join(xs, sep), sep) == xs
    decreases |xs|
  {
    if |xs| == 1 {
      SplitFromNoSep(xs[0], sep, []);
      assert [] + xs[0] == xs[0];
    } else {
      SplitJoin(xs[1..], sep);
      SplitFromSepFree(xs[0], sep, Join(xs[1..], sep), []);
      assert [] + xs[0] == xs[0];
      assert xs == [xs[0]] + xs[1..];
    }
  }

  lemma SplitJoinChar(xs: seq<string>, c: char)
    requires |xs| > 0
    requires forall i :: 0 <= i < |xs| ==> c !in xs[i]
    ensures Split(Join(xs, [c]), [c]) == xs
  {
    forall i | 0 <= i < |xs| ensures SepFree(xs[i], [c]) {
      SepFreeChar(xs[i], c);
    }
    SplitJoin(xs, [c]);
  }

  lemma {:induction false} JoinSplitFrom(s: string, sep: string, cur: string)
    requires |sep| > 0
    ensures Join(SplitFrom(s, sep, cur), sep) == cur + s
    decreases |s|
  {
    if s == [] {
    } else if sep <= s {
      var rest := s[|sep|..];
      JoinSplitFrom(rest, sep, []);
      JoinCons(cur, SplitFrom(rest, sep, []), sep);
      assert s == sep + rest;
    } else {
      JoinSplitFrom(s[1..], sep, cur + [s[0]]);
      assert cur + [s[0]] + s[1..] == cur + s;
    }
  }

  /** Joining the pieces of a split gives the string back. */
  lemma JoinSplit(s: string, sep: string)
    requires |sep| > 0
    ensures Join(Split(s, sep), sep) == s
  {
    JoinSplitFrom(s, sep, []);
  }

  /** A string without `sep` splits into itself alone. */
  lemma SplitSingle(x: string, c: char)
    requires c !in x
    ensures Split(x, [c]) == [x]
  {
    SepFreeChar(x, c);
    SplitFromNoSep(x, [c], []);
    assert [] + x == x;
  }

  /** `x + [c] + rest` splits on `c` right after `x`. */
  lemma SplitAfter(x: string, c: char, rest: string)
    requires c !in x
    ensures Split(x + [c] + rest, [c]) == [x] + Split(rest, [c])
  {
    SepFreeChar(x, c);
    SplitFromSepFree(x, [c], rest, []);
    assert [] + x == x;
  }

  /** Helper of `Words`: `cur` is the word read so far. */
  function WordsFrom(s: string, cur: string): (r: seq<string>)
    decreases |s|
  {
    if s == [] then (if cur == [] then [] else [cur])
    else if IsSpace(s[0]) then (if cur == [] then WordsFrom(s[1..], []) else [cur] + WordsFrom(s[1..], []))
    else WordsFrom(s[1..], cur + [s[0]])
  }

  /** `s.split()`: the maximal runs of non-whitespace characters. */
  function Words(s: string): seq<string>
  {
    WordsFrom(s, [])
  }

  lemma {:induction false} WordsFromWord(w: string, cur: string, rest: string)
    requires !HasSpace(w)
    requires rest == [] || IsSpace(rest[0])
    ensures WordsFrom(w + rest, cur) == WordsFrom(rest, cur + w)
    decreases |w|
  {
    if w != [] {
      assert !IsSpace(w[0]);
      assert (w + rest)[1..] == w[1..] + rest;
      assert !HasSpace(w[1..]) by {
        forall i | 0 <= i < |w[1..]| ensures !IsSpace(w[1..][i]) {
          assert w[1..][i] == w[i + 1];
        }
      }
      WordsFromWord(w[1..], cur + [w[0]], rest);
      assert cur + [w[0]] + w[1..] == cur + w;
    } else {
      assert w + rest == rest;
      assert cur + w == cur;
    }
  }

  /** Words separated by single spaces read back as the same words. */
  lemma {:induction false} WordsJoin(ws: seq<string>)
    requires forall i :: 0 <= i < |ws| ==> ws[i] != [] && !HasSpace(ws[i])
    ensures Words(Join(ws, " ")) == ws
    decreases |ws|
  {
    if |ws| == 0 {
    } else if |ws| == 1 {
      WordsFromWord(ws[0], [], []);
      assert ws[0] + [] == ws[0];
      assert [] + ws[0] == ws[0];
    } else {
      var rest := Join(ws[1..], " ");
      JoinCons(ws[0], ws[1..], " ");
      assert Join(ws, " ") == ws[0] + (" " + rest);
      WordsFromWord(ws[0], [], " " + rest);
      assert [] + ws[0] == ws[0];
      assert (" " + rest)[1..] == rest;
      WordsJoin(ws[1..]);
      assert ws == [ws[0]] + ws[1..];
    }
  }

  /** `s.rsplit(c, 1)`: the text before and after the last `c`, or `[s]`. */
  function RSplitOnce(s: string, c: char): (r: seq<string>)
    ensures |r| == 1 || |r| == 2
    ensures |r| == 1 <==> c !in s
    ensures |r| == 1 ==> r[0] == s
    ensures |r| == 2 ==> s == r[0] + [c] + r[1] && c !in r[1]
  {
    var i := LastIndexOf(s, [c]);
    if i < 0 then
      assert c !in s by {
        forall j | 0 <= j < |s| ensures s[j] != c {
          OccursAtChar(s, c, j);
        }
      }
      [s]
    else
      OccursAtChar(s, c, i);
      var tail := s[i + 1..];
      assert c !in tail by {
        forall j | 0 <= j < |tail| ensures tail[j] != c {
          OccursAtChar(s, c, i + 1 + j);
        }
      }
      assert s == s[..i] + [c] + tail;
      [s[..i], tail]
  }

  /** The last `c` of `x + [c] + y` is the one after `x` when `y` has none. */
  lemma RSplitOnceAt(x: string, c: char, y: string)
    requires c !in y
    ensures RSplitOnce(x + [c] + y, c) == [x, y]
  {
    var s := x + [c] + y;
    var i := LastIndexOf(s, [c]);
    OccursAtChar(s, c, |x|);
    OccursAtChar(s, c, i);
    assert forall j :: |x| < j < |s| ==> s[j] == y[j - |x| - 1];
    assert i == |x|;
    assert s[..i] == x;
    assert s[i + 1..] == y;
  }

  /** The text after the last `c` ends like the whole string. */
  lemma RSplitOnceLast(s: string, c: char)
    requires s != [] && c in s
    ensures var r := RSplitOnce(s, c); r[1] == [] || r[1][|r[1]| - 1] == s[|s| - 1]
  {
  }

  /** `s.split(c, 1)`: the text before and after the first `c`, or `[s]`. */
  function SplitOnce(s: string, c: char): (r: seq<string>)
    ensures |r| == 1 || |r| == 2
    ensures |r| == 1 <==> c !in s
    ensures |r| == 1 ==> r[0] == s
    ensures |r| == 2 ==> s == r[0] + [c] + r[1] && c !in r[0]
    decreases |s|
  {
    if s == [] then [s]
    else if s[0] == c then
      assert s == [] + [c] + s[1..];
      [[], s[1..]]
    else
      var t := SplitOnce(s[1..], c);
      assert s == [s[0]] + s[1..];
      if |t| == 1 then [s] else [[s[0]] + t[0], t[1]]
  }

  /** The first `c` of `x + [c] + y` is the one after `x` when `x` has none. */
  lemma {:induction false} SplitOnceAt(x: string, c: char, y: string)
    requires c !in x
    ensures SplitOnce(x + [c] + y, c) == [x, y]
    decreases |x|
  {
    var s := x + [c] + y;
    if x == [] {
      assert s[0] == c && s[1..] == y;
    } else {
      assert s[0] == x[0] && s[1..] == x[1..] + [c] + y;
      SplitOnceAt(x[1..], c, y);
      assert [s[0]] + x[1..] == x;
    }
  }

  /** `f.readlines()` on the text `s`: each line keeps its `\n`, and a last
      line without one is kept when it is not empty. */
  function ReadLines(s: string): (r: seq<string>)
    decreases |s|
  {
    if s == [] then []
    else
      var parts := SplitOnce(s, '\n');
      if |parts| == 1 then [s] else [parts[0] + "\n"] + ReadLines(parts[1])
  }

  /** A line without `\n` followed by its newline is read as one line. */
  lemma ReadLinesLine(x: string, rest: string)
    requires '\n' !in x
    ensures ReadLines(x + "\n" + rest) == [x + "\n"] + ReadLines(rest)
  {
    SplitOnceAt(x, '\n', rest);
  }

  /** Text that is empty or ends with a newline reads as its own lines, then the lines after it. */
  lemma {:induction false} ReadLinesAppend(a: string, b: string)
    requires a == [] || a[|a| - 1] == '\n'
    ensures ReadLines(a + b) == ReadLines(a) + ReadLines(b)
    decreases |a|
  {
    if a == [] {
      assert a + b == b;
    } else {
      var x, rest := FirstLine(a);
      ReadLinesAppend(rest, b);
      ReadLinesAppendStep(x, rest, b);
      StringAssoc(x + "\n", rest, b);
    }
  }

  lemma StringAssoc(x: string, y: string, z: string)
    ensures x + y + z == x + (y + z)
  {
  }

  lemma ReadLinesAppendStep(x: string, rest: string, b: string)
    requires '\n' !in x
    requires ReadLines(rest + b) == ReadLines(rest) + ReadLines(b)
    ensures ReadLines(x + "\n" + (rest + b)) == ReadLines(x + "\n" + rest) + ReadLines(b)
  {
    ReadLinesLine(x, rest);
    ReadLinesLine(x, rest + b);
    LinesAssoc([x + "\n"], ReadLines(rest), ReadLines(b));
  }

  lemma LinesAssoc(h: seq<string>, p: seq<string>, q: seq<string>)
    ensures h + p + q == h + (p + q)
  {
  }

  /** Text ending with a newline is its first line, the newline, and the rest. */
  lemma FirstLine(a: string) returns (x: string, rest: string)
    requires a != [] && a[|a| - 1] == '\n'
    ensures a == x + "\n" + rest && '\n' !in x
    ensures |rest| < |a| && (rest == [] || rest[|rest| - 1] == '\n')
  {
    assert a[|a| - 1] in a;
    var parts := SplitOnce(a, '\n');
    x, rest := parts[0], parts[1];
    if rest != [] {
      assert rest[|rest| - 1] == a[|a| - 1];
    }
  }

  // ---------------------------------------------------------------------------
  // Replacing
  // ---------------------------------------------------------------------------

  /** `s.replace(pat, rep)`: every leftmost, non-overlapping occurrence. */
  function ReplaceAll(s: string, pat: string, rep: string): string
    requires |pat| > 0
    decreases |s|
  {
    if s == [] then []
    else if pat <= s then rep + ReplaceAll(s[|pat|..], pat, rep)
    else [s[0]] + ReplaceAll(s[1..], pat, rep)
  }

  lemma {:induction false} ReplaceCharAppend(a: string, b: string, c: char, rep: string)
    ensures ReplaceAll(a + b, [c], rep) == ReplaceAll(a, [c], rep) + ReplaceAll(b, [c], rep)
    decreases |a|
  {
    if a != [] {
      assert (a + b)[1..] == a[1..] + b;
      assert (a + b)[0] == a[0];
      assert ([c] <= a + b) <==> (a + b)[0] == c;
      assert ([c] <= a) <==> a[0] == c;
      ReplaceCharAppend(a[1..], b, c, rep);
      if a[0] == c {
        assert ReplaceAll(a + b, [c], rep) == rep + ReplaceAll(a[1..] + b, [c], rep);
        assert ReplaceAll(a, [c], rep) == rep + ReplaceAll(a[1..], [c], rep);
      } else {
        assert ReplaceAll(a + b, [c], rep) == [a[0]] + ReplaceAll(a[1..] + b, [c], rep);
        assert ReplaceAll(a, [c], rep) == [a[0]] + ReplaceAll(a[1..], [c], rep);
      }
    } else {
      assert a + b == b;
    }
  }

  lemma {:induction false} ReplaceCharAbsent(a: string, c: char, rep: string)
    requires c !in a
    ensures ReplaceAll(a, [c], rep) == a
    decreases |a|
  {
    if a != [] {
      assert !([c] <= a) by {
        assert a[0] != [c][0];
      }
      ReplaceCharAbsent(a[1..], c, rep);
      assert a == [a[0]] + a[1..];
    }
  }

  lemma ReplaceCharOne(c: char, rep: string)
    ensures ReplaceAll([c], [c], rep) == rep
  {
    assert [c][1..] == [];
  }

  /** Text in which the pattern cannot start is copied through unchanged. */
  lemma {:induction false} ReplaceAfterPlain(a: string, b: string, pat: string, rep: string)
    requires |pat| > 0 && pat[0] !in a
    ensures ReplaceAll(a + b, pat, rep) == a + ReplaceAll(b, pat, rep)
    decreases |a|
  {
    if a == [] {
      assert a + b == b;
    } else {
      assert (a + b)[0] == a[0] != pat[0];
      assert (a + b)[1..] == a[1..] + b;
      ReplaceAfterPlain(a[1..], b, pat, rep);
      assert [a[0]] + (a[1..] + ReplaceAll(b, pat, rep)) == a + ReplaceAll(b, pat, rep);
    }
  }

  /** The pattern alone is replaced by the replacement. */
  lemma ReplaceWhole(pat: string, rep: string)
    requires |pat| > 0
    ensures ReplaceAll(pat, pat, rep) == rep
  {
    assert pat[|pat|..] == [];
    assert rep + [] == rep;
  }

  /** Text that does not start with the pattern and has no other place the
      pattern could start is unchanged. */
  lemma ReplaceNoMatch(s: string, pat: string, rep: string)
    requires |pat| > 0 && s != [] && !(pat <= s) && pat[0] !in s[1..]
    ensures ReplaceAll(s, pat, rep) == s
  {
    ReplaceAfterPlain(s[1..], [], pat, rep);
    assert s[1..] + [] == s[1..];
    assert [s[0]] + s[1..] == s;
  }

  // ---------------------------------------------------------------------------
  // Decimal integers
  // ---------------------------------------------------------------------------

  /** `s.isdigit()` for ASCII digits: non-empty and digits only. */
  predicate IsDigits(s: string)
  {
    |s| > 0 && forall i :: 0 <= i < |s| ==> IsDigit(s[i])
  }

  function DigitsValue(s: string): nat
    requires forall i :: 0 <= i < |s| ==> IsDigit(s[i])
  {
    if s == [] then 0
    else
      assert IsDigit(s[|s| - 1]);
      10 * DigitsValue(s[..|s| - 1]) + (s[|s| - 1] as int - '0' as int)
  }

  /** The digits of an integer literal as `int()` reads them: digits, where a
      single `_` may stand between two digits. */
  predicate IsGroupedDigits(s: string)
  {
    |s| > 0 && IsDigit(s[0]) && IsDigit(s[|s| - 1]) &&
    (forall i :: 0 <= i < |s| ==> IsDigit(s[i]) || s[i] == '_') &&
    (forall i :: 0 <= i < |s| - 1 && s[i] == '_' ==> s[i + 1] != '_')
  }

  /** The text without its grouping underscores. */
  function Ungrouped(s: string): (r: string)
    ensures (forall i :: 0 <= i < |s| ==> IsDigit(s[i]) || s[i] == '_') ==> forall i :: 0 <= i < |r| ==> IsDigit(r[i])
  {
    if s == [] then [] else (if s[0] == '_' then [] else [s[0]]) + Ungrouped(s[1..])
  }

  /** Plain digits are grouped digits with nothing to remove. */
  lemma {:induction false} PlainDigitsGrouped(s: string)
    requires IsDigits(s)
    ensures IsGroupedDigits(s) && Ungrouped(s) == s
  {
    UngroupedNoUnderscore(s);
  }

  lemma {:induction false} UngroupedNoUnderscore(s: string)
    requires forall i :: 0 <= i < |s| ==> IsDigit(s[i])
    ensures Ungrouped(s) == s
  {
    if s != [] {
      assert IsDigit(s[0]);
      UngroupedNoUnderscore(s[1..]);
    }
  }

  /** `int(s)` over the ASCII grammar: optional surrounding whitespace, an
      optional `+` or `-`, then one or more digits with single `_` allowed
      between digits. `None` is Python's `ValueError`. */
  function ParseInt(s: string): (r: Option<int>)
  {
    var t := Strip(s);
    if t != [] && (t[0] == '-' || t[0] == '+') && IsGroupedDigits(t[1..]) then
      var v: int := DigitsValue(Ungrouped(t[1..]));
      Some(if t[0] == '-' then -v else v)
    else if IsGroupedDigits(t) then Some(DigitsValue(Ungrouped(t)))
    else None
  }

  lemma {:induction false} UngroupedAppend(x: string, y: string)
    ensures Ungrouped(x + y) == Ungrouped(x) + Ungrouped(y)
  {
    if x == [] {
      assert x + y == y;
    } else {
      assert (x + y)[0] == x[0] && (x + y)[1..] == x[1..] + y;
      UngroupedAppend(x[1..], y);
    }
  }

  /** Digits, one `_`, digits: a grouped literal. */
  lemma GroupedShape(a: string, b: string)
    requires IsDigits(a) && IsDigits(b)
    ensures IsGroupedDigits(a + "_" + b)
  {
    var t := a + "_" + b;
    assert t[0] == a[0] && t[|t| - 1] == b[|b| - 1];
    forall k | 0 <= k < |t| && k != |a| ensures IsDigit(t[k]) {
      if k < |a| { assert t[k] == a[k]; } else { assert t[k] == b[k - |a| - 1]; }
    }
    assert t[|a|] == '_' && t[|a| + 1] == b[0];
  }

  lemma UngroupedJoin(a: string, b: string)
    requires IsDigits(a) && IsDigits(b)
    ensures Ungrouped(a + "_" + b) == a + b
  {
    UngroupedAppend(a + "_", b);
    UngroupedAppend(a, "_");
    UngroupedNoUnderscore(a);
    UngroupedNoUnderscore(b);
    assert Ungrouped("_") == [];
  }

  /** Digit grouping: `int("12_345") == int("12345")`. */
  lemma GroupedDigitsRead(a: string, b: string)
    requires IsDigits(a) && IsDigits(b)
    ensures ParseInt(a + "_" + b) == Some(DigitsValue(a + b))
  {
    var t := a + "_" + b;
    GroupedShape(a, b);
    UngroupedJoin(a, b);
    StripNoSpace(t);
  }

  /** `int()` refuses two underscores in a row. */
  lemma DoubledUnderscoreRefused(a: string, b: string)
    requires IsDigits(a) && IsDigits(b)
    ensures ParseInt(a + "__" + b).None?
  {
    var t := a + "__" + b;
    assert t[0] == a[0] && t[|t| - 1] == b[|b| - 1];
    assert IsDigit(a[0]) && IsDigit(b[|b| - 1]);
    StripNoSpace(t);
    assert t[|a|] == '_' && t[|a| + 1] == '_';
  }

  /** `int()` refuses an underscore at either end of the digits. */
  lemma EdgeUnderscoreRefused(a: string)
    requires IsDigits(a)
    ensures ParseInt(a + "_").None? && ParseInt("_" + a).None?
  {
    var t, u := a + "_", "_" + a;
    assert t[0] == a[0] && u[|u| - 1] == a[|a| - 1];
    assert IsDigit(a[0]) && IsDigit(a[|a| - 1]);
    StripNoSpace(t);
    StripNoSpace(u);
  }

  function DigitChar(d: nat): (c: char)
    requires d < 10
    ensures IsDigit(c) && c as int - '0' as int == d
  {
    ('0' as int + d) as char
  }

  /** `str(n)` for a natural number. */
  function NatToString(n: nat): (r: string)
    ensures IsDigits(r)
  {
    if n < 10 then [DigitChar(n)] else NatToString(n / 10) + [DigitChar(n % 10)]
  }

  /** `str(i)` for an integer. */
  function IntToString(i: int): string
  {
    if i < 0 then "-" + NatToString(-i) else NatToString(i)
  }

  lemma {:induction false} NatToStringValue(n: nat)
    ensures DigitsValue(NatToString(n)) == n
  {
    if n >= 10 {
      NatToStringValue(n / 10);
      var s := NatToString(n);
      assert s[..|s| - 1] == NatToString(n / 10);
    }
  }

  /** `int(str(i)) == i`. */
  lemma ParseIntToString(i: int)
    ensures ParseInt(IntToString(i)) == Some(i)
  {
    var n: nat := if i < 0 then -i else i;
    var d := NatToString(n);
    NatToStringValue(n);
    var s := IntToString(i);
    assert !IsSpace(d[0]) && !IsSpace(d[|d| - 1]) by {
      assert IsDigit(d[0]) && IsDigit(d[|d| - 1]);
    }
    PlainDigitsGrouped(d);
    if i < 0 {
      assert s == "-" + d;
      assert s[1..] == d;
      assert s[0] == '-';
      assert s[|s| - 1] == d[|d| - 1];
      StripNoSpace(s);
    } else {
      assert s == d;
      StripNoSpace(s);
      assert !(s[0] == '-' || s[0] == '+') by {
        assert IsDigit(s[0]);
      }
    }
  }

  // ---------------------------------------------------------------------------
  // Paths
  // ---------------------------------------------------------------------------

  /** `pathlib.PurePath(name).stem` for a bare file name: the text before the
      last dot, unless that dot is the first or the last character. */
  function Stem(name: string): (r: string)
    ensures r <= name
  {
    var i := LastIndexOf(name, ".");
    if 0 < i < |name| - 1 then name[..i] else name
  }

  /** The stem of `stem.ext` is `stem` when `ext` has no dot. */
  lemma StemOfExtension(stem: string, ext: string)
    requires stem != [] && '.' !in ext && ext != []
    ensures Stem(stem + "." + ext) == stem
  {
    var name := stem + "." + ext;
    var i := LastIndexOf(name, ".");
    OccursAtChar(name, '.', |stem|);
    OccursAtChar(name, '.', i);
    assert forall j :: |stem| < j < |name| ==> name[j] == ext[j - |stem| - 1];
    assert name[..i] == stem;
  }
}

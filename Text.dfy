/** The pieces of Python's `str` behaviour that Oracle.py relies on: whitespace, case mapping,
    prefix tests, substring search, `split`, `strip`, `count`, `readlines` and the ordering
    `sorted` uses on strings. A Python `str` is a `string` here, one `char` per code point. */
module Text {

  /** `str.isspace()`, which is also what `strip()` removes and what the regex class `\s`
      matches in a `str` pattern. */
  predicate IsSpace(c: char)
  {
    || c == ' '
    || ('\t' <= c <= '\r')
    || ('\U{1C}' <= c <= '\U{1F}')
    || c == '\U{85}' || c == '\U{A0}' || c == '\U{1680}'
    || ('\U{2000}' <= c <= '\U{200A}')
    || c == '\U{2028}' || c == '\U{2029}' || c == '\U{202F}' || c == '\U{205F}' || c == '\U{3000}'
  }

  /** An ASCII decimal digit. */
  predicate IsDigit(c: char)
  {
    '0' <= c <= '9'
  }

  predicate AllSpace(s: string)
  {
    forall i :: 0 <= i < |s| ==> IsSpace(s[i])
  }

  predicate AllDigits(s: string)
  {
    forall i :: 0 <= i < |s| ==> IsDigit(s[i])
  }

  function UpperChar(c: char): char
  {
    if 'a' <= c <= 'z' then (c as int - 32) as char else c
  }

  function LowerChar(c: char): char
  {
    if 'A' <= c <= 'Z' then (c as int + 32) as char else c
  }

  /** `str.upper()` on the ASCII letters. */
  function Upper(s: string): string
  {
    seq(|s|, i requires 0 <= i < |s| => UpperChar(s[i]))
  }

  /** `str.lower()` on the ASCII letters. */
  function Lower(s: string): string
  {
    seq(|s|, i requires 0 <= i < |s| => LowerChar(s[i]))
  }

  /** `s.startswith(p)`, and what an anchored regex made of the literal `p` tests. */
  predicate StartsWith(s: string, p: string)
  {
    |p| <= |s| && s[..|p|] == p
  }

  /** `sub` occurs in `s` starting at index `i`. */
  predicate OccursAt(s: string, sub: string, i: int)
  {
    0 <= i && i + |sub| <= |s| && s[i..i + |sub|] == sub
  }

  /** `s.count(c)` for a single character. */
  function CountChar(s: string, c: char): nat
  {
    multiset(s)[c]
  }

  /** The first occurrence of `sub` in `s` at or after `k`, or -1. */
  function FindFrom(s: string, sub: string, k: nat): (r: int)
    requires k <= |s|
    ensures r == -1 || (k <= r && OccursAt(s, sub, r))
    ensures r == -1 ==> forall i :: k <= i <= |s| ==> !OccursAt(s, sub, i)
    ensures r != -1 ==> forall i :: k <= i < r ==> !OccursAt(s, sub, i)
    decreases |s| - k
  {
    if k + |sub| > |s| then -1
    else if s[k..k + |sub|] == sub then k
    else if k == |s| then -1
    else FindFrom(s, sub, k + 1)
  }

  /** `s.find(sub)`. */
  function Find(s: string, sub: string): (r: int)
    ensures r == -1 || OccursAt(s, sub, r)
    ensures r == -1 ==> forall i :: 0 <= i <= |s| ==> !OccursAt(s, sub, i)
    ensures r != -1 ==> forall i :: 0 <= i < r ==> !OccursAt(s, sub, i)
  {
    FindFrom(s, sub, 0)
  }

  /** The last occurrence of `sub` in `s` starting below `k`, or -1. */
  function LastBelow(s: string, sub: string, k: nat): (r: int)
    ensures r == -1 || (r < k && OccursAt(s, sub, r))
    ensures forall i :: r < i < k ==> !OccursAt(s, sub, i)
  {
    if k == 0 then -1
    else if OccursAt(s, sub, k - 1) then k - 1
    else LastBelow(s, sub, k - 1)
  }

  /** `s.rfind(sub)`. */
  function RFind(s: string, sub: string): (r: int)
    ensures r == -1 || OccursAt(s, sub, r)
    ensures forall i :: r < i <= |s| ==> !OccursAt(s, sub, i)
  {
    LastBelow(s, sub, |s| + 1)
  }

  /** `s.split(sep)` for a non-empty separator: the pieces between the non-overlapping
      occurrences of `sep`, found from the left. There is always at least one piece. */
  function Split(s: string, sep: string): (r: seq<string>)
    requires |sep| > 0
    ensures |r| >= 1
    decreases |s|
  {
    var i := Find(s, sep);
    if i < 0 then [s] else [s[..i]] + Split(s[i + |sep|..], sep)
  }

  /** `sep.join(parts)`. */
  function Join(parts: seq<string>, sep: string): string
  {
    if |parts| == 0 then ""
    else if |parts| == 1 then parts[0]
    else parts[0] + sep + Join(parts[1..], sep)
  }

  /** Splitting and joining again with the same separator gives back the text. */
  lemma {:induction false} SplitJoin(s: string, sep: string)
    requires |sep| > 0
    ensures Join(Split(s, sep), sep) == s
    decreases |s|
  {
    var i := Find(s, sep);
    if i >= 0 {
      var rest := s[i + |sep|..];
      var parts := Split(rest, sep);
      SplitJoin(rest, sep);
      assert Split(s, sep) == [s[..i]] + parts;
      JoinCons(s[..i], parts, sep);
      Around(s, sep, i);
    }
  }

  /** Joining after one more part in front adds that part and the separator. */
  lemma JoinCons(x: string, parts: seq<string>, sep: string)
    requires parts != []
    ensures Join([x] + parts, sep) == x + sep + Join(parts, sep)
  {
    assert ([x] + parts)[1..] == parts;
  }

  /** An occurrence of `sub` at `i` splits `s` around it. */
  lemma Around(s: string, sub: string, i: int)
    requires OccursAt(s, sub, i)
    ensures s == s[..i] + sub + s[i + |sub|..] && s == s[..i] + s[i..] && s[i..][..|sub|] == sub
  {
    assert s[i..][..|sub|] == s[i..i + |sub|];
  }

  /** Joining after one more part adds the separator and that part. */
  lemma {:induction false} JoinSnoc(parts: seq<string>, x: string, sep: string)
    requires parts != []
    ensures Join(parts + [x], sep) == Join(parts, sep) + sep + x
    decreases |parts|
  {
    if |parts| == 1 {
      assert (parts + [x])[1..] == [x];
    } else {
      assert (parts + [x])[1..] == parts[1..] + [x];
      JoinSnoc(parts[1..], x, sep);
    }
  }

  /** A one-character text occurs exactly where that character stands. */
  lemma OccursChar(s: string, c: char)
    ensures forall i :: OccursAt(s, [c], i) <==> 0 <= i < |s| && s[i] == c
  {
    forall i | 0 <= i < |s| ensures s[i..i + 1] == [s[i]] { }
  }

  /** `s.rfind(c)` finds the last `c`. */
  lemma RFindChar(s: string, c: char)
    ensures RFind(s, [c]) == -1 ==> c !in s
    ensures RFind(s, [c]) >= 0 ==> RFind(s, [c]) < |s| && s[RFind(s, [c])] == c
    ensures forall j :: RFind(s, [c]) < j < |s| ==> s[j] != c
  {
    OccursChar(s, c);
  }

  /** `s.find(c)` is -1 when `c` does not occur. */
  lemma FindCharNone(s: string, c: char)
    requires c !in s
    ensures Find(s, [c]) == -1
  {
    OccursChar(s, c);
  }

  /** `s.find(c)` is the index of the first `c`. */
  lemma FindCharFirst(a: string, c: char, b: string)
    requires c !in a
    ensures Find(a + [c] + b, [c]) == |a|
  {
    var s := a + [c] + b;
    OccursChar(s, c);
    assert s[|a|] == c;
    assert forall i :: 0 <= i < |a| ==> s[i] == a[i];
  }

  /** A text without `c` is its own only piece. */
  lemma SplitCharNone(s: string, c: char)
    requires c !in s
    ensures Split(s, [c]) == [s]
  {
    OccursChar(s, c);
  }

  /** The first occurrence of `c` ends the first piece. */
  lemma SplitCharCons(a: string, c: char, b: string)
    requires c !in a
    ensures Split(a + [c] + b, [c]) == [a] + Split(b, [c])
  {
    var s := a + [c] + b;
    FindCharFirst(a, c, b);
    assert s[..|a|] == a;
    assert s[|a| + 1..] == b;
  }

  /** Joining pieces that do not hold `c` with `c` and splitting again gives the pieces back. */
  lemma {:induction false} JoinSplitChar(parts: seq<string>, c: char)
    requires parts != [] && forall k :: 0 <= k < |parts| ==> c !in parts[k]
    ensures Split(Join(parts, [c]), [c]) == parts
    decreases |parts|
  {
    if |parts| == 1 {
      SplitCharNone(parts[0], c);
    } else {
      JoinSplitChar(parts[1..], c);
      SplitCharCons(parts[0], c, Join(parts[1..], [c]));
      assert parts == [parts[0]] + parts[1..];
    }
  }

  /** No piece holds `c`. */
  predicate PiecesFree(parts: seq<string>, c: char)
  {
    forall k :: 0 <= k < |parts| ==> c !in parts[k]
  }

  /** `s.split(c)` has one piece more than `s.count(c)`, and no piece holds `c`. */
  lemma {:induction false} SplitCharCount(s: string, c: char)
    ensures |Split(s, [c])| == CountChar(s, c) + 1
    ensures PiecesFree(Split(s, [c]), c)
    decreases |s|
  {
    var i := Find(s, [c]);
    if i >= 0 {
      SplitCharStep(s, c);
      var b := s[i + 1..];
      SplitCharCount(b, c);
      PiecesCount(Split(s, [c]), s[..i], Split(b, [c]), c, CountChar(b, c), CountChar(s, c));
    } else {
      SplitCharAbsent(s, c);
    }
  }

  /** One piece without `c` in front of pieces without `c`, one more piece for one more `c`. */
  lemma PiecesCount(r: seq<string>, a: string, rest: seq<string>, c: char, n: nat, m: nat)
    requires r == [a] + rest && c !in a && PiecesFree(rest, c) && |rest| == n + 1 && m == n + 1
    ensures |r| == m + 1 && PiecesFree(r, c)
  {
    forall k | 0 <= k < |r| ensures c !in r[k] {
      if k > 0 { assert r[k] == rest[k - 1]; }
    }
  }

  /** Without a `c`, the text is its own only piece and counts no `c`. */
  lemma SplitCharAbsent(s: string, c: char)
    requires Find(s, [c]) < 0
    ensures Split(s, [c]) == [s] && CountChar(s, c) == 0 && c !in s
  {
    OccursChar(s, c);
    SplitCharNone(s, c);
    CountAbsent(s, c);
  }

  /** Splitting at the first `c`: one piece without `c`, then the pieces of the rest. */
  lemma SplitCharStep(s: string, c: char)
    requires Find(s, [c]) >= 0
    ensures var i := Find(s, [c]);
      && i < |s|
      && Split(s, [c]) == [s[..i]] + Split(s[i + 1..], [c])
      && CountChar(s, c) == CountChar(s[i + 1..], c) + 1
      && c !in s[..i]
  {
    FirstChar(s, c);
    var i := Find(s, [c]);
    SplitCharCons(s[..i], c, s[i + 1..]);
    CountCons(s[..i], c, s[i + 1..]);
  }

  /** The first `c` in `s` cuts it into a text without `c`, the `c`, and the rest. */
  lemma FirstChar(s: string, c: char)
    requires Find(s, [c]) >= 0
    ensures var i := Find(s, [c]); i < |s| && s == s[..i] + [c] + s[i + 1..] && c !in s[..i]
  {
    OccursChar(s, c);
    var i := Find(s, [c]);
    forall j | 0 <= j < i ensures s[..i][j] != c {
      assert !OccursAt(s, [c], j);
    }
  }

  /** One `c` more in front of the rest counts once more. */
  lemma CountCons(a: string, c: char, b: string)
    requires c !in a
    ensures CountChar(a + [c] + b, c) == CountChar(b, c) + 1
  {
    assert multiset(a + [c] + b) == multiset(a) + multiset([c]) + multiset(b);
  }

  /** A character that is not in `s` is counted zero times. */
  lemma CountAbsent(s: string, c: char)
    requires c !in s
    ensures CountChar(s, c) == 0
  {
  }

  /** Three pieces free of `x` joined by `x` split back into those pieces. */
  lemma SplitThree(a: string, b: string, c: string, x: char)
    requires x !in a && x !in b && x !in c
    ensures Split(a + [x] + b + [x] + c, [x]) == [a, b, c]
    ensures CountChar(a + [x] + b + [x] + c, x) == 2
  {
    var f := [a, b, c];
    JoinSplitChar(f, x);
    JoinThree(f, [x]);
    SplitCharCount(Join(f, [x]), x);
  }

  /** Four pieces free of `x` joined by `x` split back into those pieces. */
  lemma SplitFour(a: string, b: string, c: string, d: string, x: char)
    requires x !in a && x !in b && x !in c && x !in d
    ensures Split(a + [x] + b + [x] + c + [x] + d, [x]) == [a, b, c, d]
    ensures CountChar(a + [x] + b + [x] + c + [x] + d, x) == 3
  {
    var f := [a, b, c, d];
    JoinSplitChar(f, x);
    JoinFour(f, [x]);
    SplitCharCount(Join(f, [x]), x);
  }

  /** A character in none of four pieces is not in them joined by another character. */
  lemma AbsentFour(a: string, b: string, c: string, d: string, x: char, y: char)
    requires y !in a && y !in b && y !in c && y !in d && y != x
    ensures y !in a + [x] + b + [x] + c + [x] + d
  {
  }

  /** The separator occurs in four pieces joined by it. */
  lemma SeparatorInFour(a: string, b: string, c: string, d: string, x: char)
    ensures x in a + [x] + b + [x] + c + [x] + d
  {
    assert (a + [x] + b + [x] + c + [x] + d)[|a|] == x;
  }

  /** A text holding a character that is not whitespace is not all whitespace. */
  lemma HoldsNonSpace(s: string, c: char)
    requires c in s && !IsSpace(c)
    ensures !AllSpace(s)
  {
  }

  /** Four pieces joined by `sep`. */
  lemma JoinFour(f: seq<string>, sep: string)
    requires |f| == 4
    ensures Join(f, sep) == f[0] + sep + f[1] + sep + f[2] + sep + f[3]
  {
    var t := f[1..];
    JoinThree(t, sep);
    assert Join(f, sep) == f[0] + sep + Join(t, sep);
  }

  /** Three pieces joined by `sep`. */
  lemma JoinThree(f: seq<string>, sep: string)
    requires |f| == 3
    ensures Join(f, sep) == f[0] + sep + f[1] + sep + f[2]
  {
    var t := f[1..];
    assert t[1..] == [f[2]];
    assert Join(t, sep) == t[0] + sep + Join(t[1..], sep);
    assert Join(f, sep) == f[0] + sep + Join(t, sep);
  }

  /** The last element of `a + b` and what comes before it, for a non-empty `b`. */
  lemma SnocSplit<T>(a: seq<T>, b: seq<T>)
    requires b != []
    ensures (a + b)[..|a + b| - 1] == a + b[..|b| - 1] && (a + b)[|a + b| - 1] == b[|b| - 1]
  {
  }

  /** The number of leading characters of `s` that are whitespace. */
  function LeadingSpaces(s: string): (n: nat)
    ensures n <= |s|
    ensures forall i :: 0 <= i < n ==> IsSpace(s[i])
    ensures n == |s| || !IsSpace(s[n])
  {
    if s != [] && IsSpace(s[0]) then 1 + LeadingSpaces(s[1..]) else 0
  }

  /** The number of trailing characters of `s` that are whitespace. */
  function TrailingSpaces(s: string): (n: nat)
    ensures n <= |s|
    ensures forall i :: |s| - n <= i < |s| ==> IsSpace(s[i])
    ensures n == |s| || !IsSpace(s[|s| - n - 1])
  {
    if s != [] && IsSpace(s[|s| - 1]) then 1 + TrailingSpaces(s[..|s| - 1]) else 0
  }

  /** `s.strip()`: `s` without its leading and trailing whitespace. */
  function Strip(s: string): string
  {
    var t := s[LeadingSpaces(s)..];
    t[..|t| - TrailingSpaces(t)]
  }

  /** `strip()` keeps a slice of `s` whose ends are not whitespace, cutting off only
      whitespace, and leaves nothing exactly when `s` is all whitespace. */
  lemma StripSlice(s: string)
    ensures var r := Strip(s);
      && (r == [] || (!IsSpace(r[0]) && !IsSpace(r[|r| - 1])))
      && (r == [] <==> AllSpace(s))
      && exists i :: 0 <= i <= |s| - |r| && r == s[i..i + |r|] && AllSpace(s[..i]) && AllSpace(s[i + |r|..])
  {
    var i := LeadingSpaces(s);
    var t := s[i..];
    var r := t[..|t| - TrailingSpaces(t)];
    StripWindow(s, i, t, r);
    StripEnds(s, i, t, r);
    StripIs(s, i, t, r);
    assert 0 <= i <= |s| - |r| && r == s[i..i + |r|] && AllSpace(s[..i]) && AllSpace(s[i + |r|..]);
  }

  lemma StripIs(s: string, i: nat, t: string, r: string)
    requires i == LeadingSpaces(s) && t == s[i..] && r == t[..|t| - TrailingSpaces(t)]
    ensures Strip(s) == r
  {
  }

  lemma StripWindow(s: string, i: nat, t: string, r: string)
    requires i == LeadingSpaces(s) && t == s[i..] && r == t[..|t| - TrailingSpaces(t)]
    ensures 0 <= i <= |s| - |r| && r == s[i..i + |r|] && AllSpace(s[..i]) && AllSpace(s[i + |r|..])
  {
    SliceOfSlice(s, i, t, |t| - TrailingSpaces(t));
    SpacesAfter(t, |r|);
    SpacesBefore(s, i);
  }

  lemma SliceOfSlice(s: string, i: nat, t: string, k: nat)
    requires i <= |s| && t == s[i..] && k <= |t|
    ensures t[..k] == s[i..i + k] && s[i + k..] == t[k..]
  {
  }

  lemma SpacesAfter(t: string, k: nat)
    requires k == |t| - TrailingSpaces(t)
    ensures AllSpace(t[k..])
  {
    forall j | 0 <= j < |t| - k ensures IsSpace(t[k..][j]) {
      assert t[k..][j] == t[k + j];
    }
  }

  lemma SpacesBefore(s: string, i: nat)
    requires i == LeadingSpaces(s)
    ensures AllSpace(s[..i])
  {
    forall k | 0 <= k < i ensures IsSpace(s[..i][k]) {
      assert s[..i][k] == s[k];
    }
  }

  lemma StripEnds(s: string, i: nat, t: string, r: string)
    requires i == LeadingSpaces(s) && t == s[i..] && r == t[..|t| - TrailingSpaces(t)]
    ensures r == [] || (!IsSpace(r[0]) && !IsSpace(r[|r| - 1]))
    ensures r == [] <==> AllSpace(s)
  {
    if r != [] {
      assert r[0] == s[i];
      assert r[|r| - 1] == t[|t| - TrailingSpaces(t) - 1];
    }
    if !AllSpace(s) {
      assert i < |s|;
      assert !IsSpace(t[0]);
    }
  }

  lemma {:induction false} LeadingSpacesAfter(a: string, y: string)
    requires AllSpace(a)
    ensures LeadingSpaces(a + y) == |a| + LeadingSpaces(y)
    decreases |a|
  {
    if a != [] {
      assert (a + y)[1..] == a[1..] + y;
      LeadingSpacesAfter(a[1..], y);
    } else {
      assert a + y == y;
    }
  }

  lemma {:induction false} TrailingSpacesBefore(y: string, b: string)
    requires AllSpace(b)
    ensures TrailingSpaces(y + b) == TrailingSpaces(y) + |b|
    decreases |b|
  {
    if b != [] {
      assert (y + b)[..|y + b| - 1] == y + b[..|b| - 1];
      TrailingSpacesBefore(y, b[..|b| - 1]);
    } else {
      assert y + b == y;
    }
  }

  /** Whitespace around a text that neither begins nor ends with whitespace is exactly what
      `strip()` removes. */
  lemma StripPadded(a: string, x: string, b: string)
    requires AllSpace(a) && AllSpace(b)
    requires x == [] || (!IsSpace(x[0]) && !IsSpace(x[|x| - 1]))
    ensures Strip(a + x + b) == x
  {
    if x == [] {
      SpacesConcat(a, b);
      assert a + x + b == a + b;
      StripAllSpace(a + b);
    } else {
      StripAround(a, x, b);
    }
  }

  lemma StripAllSpace(s: string)
    requires AllSpace(s)
    ensures Strip(s) == []
  {
    assert LeadingSpaces(s) == |s|;
  }

  lemma StripAround(a: string, x: string, b: string)
    requires AllSpace(a) && AllSpace(b) && x != [] && !IsSpace(x[0]) && !IsSpace(x[|x| - 1])
    ensures Strip(a + x + b) == x
  {
    Regroup(a, x, b);
    LeadingSpacesAfter(a, x + b);
    TrailingSpacesBefore(x, b);
    assert LeadingSpaces(x + b) == 0 by { assert (x + b)[0] == x[0]; }
    assert TrailingSpaces(x) == 0;
  }

  lemma SpacesConcat(a: string, b: string)
    requires AllSpace(a) && AllSpace(b)
    ensures AllSpace(a + b)
  {
    forall k | 0 <= k < |a + b| ensures IsSpace((a + b)[k]) {
      if k >= |a| {
        assert (a + b)[k] == b[k - |a|];
      }
    }
  }

  lemma Assoc<T>(a: seq<T>, b: seq<T>, c: seq<T>)
    ensures a + (b + c) == a + b + c
  {
  }

  lemma Regroup(a: string, x: string, b: string)
    ensures a + x + b == a + (x + b) && (a + x + b)[|a|..] == x + b && (x + b)[..|x|] == x
  {
  }

  /** A text with no blank at either end is its own strip. */
  lemma StripUnpadded(x: string)
    requires x == [] || (!IsSpace(x[0]) && !IsSpace(x[|x| - 1]))
    ensures Strip(x) == x
  {
    StripPadded("", x, "");
    assert "" + x + "" == x;
  }

  /** Digits are not blanks, so stripping a digit string leaves it alone. */
  lemma StripDigits(s: string)
    requires AllDigits(s)
    ensures Strip(s) == s
  {
    if s != [] {
      assert IsDigit(s[0]) && IsDigit(s[|s| - 1]);
    }
    StripUnpadded(s);
  }

  /** `lower()` keeps every character that is not a letter where it was. */
  lemma {:induction false} LowerKeeps(s: string, c: char)
    requires !('A' <= c <= 'Z') && !('a' <= c <= 'z')
    ensures CountChar(Lower(s), c) == CountChar(s, c)
    decreases |s|
  {
    if s != [] {
      LowerKeeps(s[1..], c);
      assert Lower(s) == [LowerChar(s[0])] + Lower(s[1..]);
      assert s == [s[0]] + s[1..];
    }
  }

  /** A text made of the lines of `s` as `readlines()` returns them: each piece ends just
      after a newline, except a last piece that has none. */
  function ReadLines(s: string): (r: seq<string>)
    decreases |s|
  {
    var i := Find(s, "\n");
    if i < 0 then (if s == [] then [] else [s])
    else [s[..i + 1]] + ReadLines(s[i + 1..])
  }

  /** `a < b` on Python strings: code-point lexicographic order, a proper prefix first. */
  predicate Below(a: string, b: string)
    decreases |a|
  {
    |b| > 0 && (|a| == 0 || a[0] < b[0] || (a[0] == b[0] && Below(a[1..], b[1..])))
  }

  lemma {:induction false} BelowIrreflexive(a: string)
    ensures !Below(a, a)
    decreases |a|
  {
    if |a| > 0 { BelowIrreflexive(a[1..]); }
  }

  lemma {:induction false} BelowTransitive(a: string, b: string, c: string)
    requires Below(a, b) && Below(b, c)
    ensures Below(a, c)
    decreases |a|
  {
    if |a| > 0 && a[0] == b[0] && b[0] == c[0] {
      BelowTransitive(a[1..], b[1..], c[1..]);
    }
  }

  lemma {:induction false} BelowTotal(a: string, b: string)
    requires a != b
    ensures Below(a, b) || Below(b, a)
    decreases |a|
  {
    if |a| > 0 && |b| > 0 && a[0] == b[0] {
      assert a == [a[0]] + a[1..] && b == [b[0]] + b[1..];
      BelowTotal(a[1..], b[1..]);
    }
  }

  lemma BelowAsymmetric(a: string, b: string)
    requires Below(a, b)
    ensures !Below(b, a)
  {
    if Below(b, a) {
      BelowTransitive(a, b, a);
      BelowIrreflexive(a);
    }
  }
}

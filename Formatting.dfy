/** Two small string helpers of Oracle.py: `ChunkString`, which cuts a text into pieces of a given
    length, and `FormatNumber`, which puts a thousands separator into the digits of a number
    written as a string. */
module Formatting {
  import opened Failures
  import opened Text

  // ChunkString

  /** `s[i:i+n]` for `i` in `range(0, len(s), n)`, for a positive `n`. */
  function Chunks(s: string, n: nat): seq<string>
    requires n > 0
    decreases |s|
  {
    if s == [] then []
    else if |s| <= n then [s]
    else [s[..n]] + Chunks(s[n..], n)
  }

  /** `ChunkString(s, n)`: `range` with a step of 0 raises `ValueError` when the generator is
      built, a negative step gives an empty range, and the chunks of a positive length put
      together give the text back. */
  function ChunkString(s: string, n: int): (r: Result<seq<string>>)
    ensures n == 0 <==> r.Err?
    ensures n < 0 ==> r == Ok([])
    ensures n > 0 ==> r.Ok? && Join(r.value, "") == s
  {
    if n == 0 then Err(ValueError(s))
    else if n < 0 then Ok([])
    else
      ChunksJoin(s, n);
      Ok(Chunks(s, n))
  }

  /** The chunks put together give the text back. */
  lemma {:induction false} ChunksJoin(s: string, n: nat)
    requires n > 0
    ensures Join(Chunks(s, n), "") == s
    decreases |s|
  {
    if |s| > n {
      ChunksJoin(s[n..], n);
      assert s == s[..n] + s[n..];
      assert ([s[..n]] + Chunks(s[n..], n))[1..] == Chunks(s[n..], n);
    }
  }

  /** There are `ceil(|s| / n)` chunks. */
  lemma {:induction false} ChunksCount(s: string, n: nat)
    requires n > 0
    ensures (|Chunks(s, n)| - 1) * n < |s| <= |Chunks(s, n)| * n
    decreases |s|
  {
    if |s| > n {
      var k := |Chunks(s[n..], n)|;
      ChunksCount(s[n..], n);
      assert |Chunks(s, n)| == k + 1;
      assert (k + 1) * n == k * n + n;
    }
  }

  /** Every chunk but the last has length `n`; the last has between 1 and `n` characters. */
  lemma {:induction false} ChunksSizes(s: string, n: nat)
    requires n > 0
    ensures var c := Chunks(s, n);
      (forall i :: 0 <= i < |c| - 1 ==> |c[i]| == n) && (c != [] ==> 1 <= |c[|c| - 1]| <= n)
    decreases |s|
  {
    if |s| > n {
      var rest := Chunks(s[n..], n);
      ChunksSizes(s[n..], n);
      assert Chunks(s, n) == [s[..n]] + rest;
      assert forall i :: 1 <= i < |rest| + 1 ==> ([s[..n]] + rest)[i] == rest[i - 1];
    }
  }

  // FormatNumber

  /** `c in numChars`, where `numChars = dSep + '0123456789'`: `NumCharIff` shows the two
      agree. */
  predicate NumChar(c: char, dSep: string)
  {
    c in dSep || IsDigit(c)
  }

  lemma NumCharIff(c: char, dSep: string)
    ensures NumChar(c, dSep) <==> c in dSep + "0123456789"
  {
    var digits := "0123456789";
    assert forall d :: d in digits <==> IsDigit(d) by {
      forall d ensures d in digits <==> IsDigit(d) {
        if IsDigit(d) {
          assert digits[(d - '0') as int] == d;
        }
      }
    }
  }

  /** The length of the longest prefix of `s[k..]` with no digit and no character of `dSep`. */
  function LeadFrom(s: string, dSep: string, k: nat): (n: nat)
    requires k <= |s|
    ensures k <= n <= |s|
    ensures forall i :: k <= i < n ==> !NumChar(s[i], dSep)
    ensures n == |s| || NumChar(s[n], dSep)
    decreases |s| - k
  {
    if k == |s| || NumChar(s[k], dSep) then k else LeadFrom(s, dSep, k + 1)
  }

  function Lead(s: string, dSep: string): (n: nat)
    ensures n <= |s|
    ensures forall i :: 0 <= i < n ==> !NumChar(s[i], dSep)
    ensures n == |s| || NumChar(s[n], dSep)
  {
    LeadFrom(s, dSep, 0)
  }

  /** Where the decimal part starts in the text after the prefix: the last `dSep`, or -1. */
  function DecimalAt(rest: string, dSep: string): (cnt: int)
    ensures cnt == -1 || (0 <= cnt && |dSep| > 0 && OccursAt(rest, dSep, cnt))
    ensures |dSep| > 0 ==> forall i :: cnt < i <= |rest| ==> !OccursAt(rest, dSep, i)
  {
    if dSep == "" then -1 else RFind(rest, dSep)
  }

  /** The second loop: `splt = s[-3:] + tSep + splt; s = s[:-3]` until `s` is empty. */
  function Grouped(s: string, tSep: string): string
    decreases |s|
  {
    if s == [] then []
    else
      var k := if |s| >= 3 then |s| - 3 else 0;
      Grouped(s[..k], tSep) + s[k..] + tSep
  }

  /** `x[:-1]`. */
  function DropLast(x: string): string
  {
    if x == [] then [] else x[..|x| - 1]
  }

  /** What `FormatNumber(s, tSep, dSep)` returns for a string `s`. */
  function Formatted(s: string, tSep: string, dSep: string): string
  {
    var n := Lead(s, dSep);
    var rest := s[n..];
    var cnt := DecimalAt(rest, dSep);
    var mid := if cnt > 0 then rest[..cnt] else rest;
    var rhs := if cnt > 0 then dSep + rest[cnt + 1..] else "";
    s[..n] + DropLast(Grouped(mid, tSep)) + rhs
  }

  method FormatNumber(s: string, tSep: string, dSep: string) returns (r: string)
    ensures r == Formatted(s, tSep, dSep)
  {
    var cnt := SkipPrefix(s, dSep);
    var lhs := s[..cnt];
    var t := s[cnt..];
    if dSep == "" {
      cnt := -1;
    } else {
      cnt := RFind(t, dSep);
    }
    var rhs := "";
    if cnt > 0 {
      rhs := dSep + t[cnt + 1..];
      t := t[..cnt];
    }
    var splt := GroupThousands(t, tSep);
    r := lhs + DropLast(splt) + rhs;
  }

  /** The first loop: the index of the first digit or decimal sign character. */
  method SkipPrefix(s: string, dSep: string) returns (cnt: nat)
    ensures cnt == Lead(s, dSep)
  {
    cnt := 0;
    var ls := |s|;
    while cnt < ls && !NumChar(s[cnt], dSep)
      invariant 0 <= cnt <= ls
      invariant forall i :: 0 <= i < cnt ==> !NumChar(s[i], dSep)
    {
      cnt := cnt + 1;
    }
    LeadUnique(s, dSep, cnt);
  }

  /** The second loop: groups of three taken from the right, each followed by `tSep`. */
  method GroupThousands(digits: string, tSep: string) returns (splt: string)
    ensures splt == Grouped(digits, tSep)
  {
    var t := digits;
    splt := "";
    while t != ""
      invariant Grouped(t, tSep) + splt == Grouped(digits, tSep)
      decreases |t|
    {
      var k := if |t| >= 3 then |t| - 3 else 0;
      splt := t[k..] + tSep + splt;
      t := t[..k];
    }
  }

  /** The first loop stops exactly at `Lead`. */
  lemma LeadUnique(s: string, dSep: string, n: nat)
    requires n <= |s| && forall i :: 0 <= i < n ==> !NumChar(s[i], dSep)
    requires n == |s| || NumChar(s[n], dSep)
    ensures n == Lead(s, dSep)
  {
    var m := Lead(s, dSep);
    assert m == |s| || NumChar(s[m], dSep);
    assert !(m < n) && !(n < m);
  }

  /** The groups of three from the right; the first may be shorter. */
  function Groups(s: string): seq<string>
    decreases |s|
  {
    if s == [] then []
    else
      var k := if |s| >= 3 then |s| - 3 else 0;
      Groups(s[..k]) + [s[k..]]
  }

  /** The groups put together give the digits back, every group but the first has three
      characters, the first has one to three. */
  lemma {:induction false} GroupsFacts(s: string)
    ensures var g := Groups(s);
      Join(g, "") == s
      && (s == [] <==> g == [])
      && (forall i :: 0 < i < |g| ==> |g[i]| == 3)
      && (g != [] ==> 1 <= |g[0]| <= 3)
      && |g| == (|s| + 2) / 3
    decreases |s|
  {
    if s != [] {
      var k := if |s| >= 3 then |s| - 3 else 0;
      GroupsFacts(s[..k]);
      var g := Groups(s[..k]);
      if g != [] {
        JoinSnoc(g, s[k..], "");
        assert s[..k] + "" + s[k..] == s;
        assert (g + [s[k..]])[0] == g[0];
      }
    }
  }

  /** The second loop appends `tSep` after every group. */
  lemma {:induction false} GroupedJoin(s: string, tSep: string)
    requires s != []
    ensures Grouped(s, tSep) == Join(Groups(s), tSep) + tSep
    decreases |s|
  {
    var k := if |s| >= 3 then |s| - 3 else 0;
    if k > 0 {
      GroupedJoin(s[..k], tSep);
      GroupsFacts(s[..k]);
      JoinSnoc(Groups(s[..k]), s[k..], tSep);
    }
  }

  /** Joining the groups of `s` with a separator adds one separator between each two groups. */
  lemma {:induction false} GroupsJoinLength(s: string, tSep: string)
    requires s != []
    ensures |Join(Groups(s), tSep)| == |s| + (|Groups(s)| - 1) * |tSep|
    decreases |s|
  {
    var k := if |s| >= 3 then |s| - 3 else 0;
    if k > 0 {
      GroupsJoinLength(s[..k], tSep);
      GroupsFacts(s[..k]);
      JoinSnoc(Groups(s[..k]), s[k..], tSep);
    }
  }

  /** The three parts of the input that `FormatNumber` works on: a prefix without digits or
      decimal sign, the middle that it regroups, and the decimal part from the last decimal
      sign, kept only when that sign is not the first character after the prefix. */
  function Parts(s: string, dSep: string): (string, string, string)
  {
    var n := Lead(s, dSep);
    var rest := s[n..];
    var cnt := DecimalAt(rest, dSep);
    if cnt > 0 then (s[..n], rest[..cnt], rest[cnt..]) else (s[..n], rest, "")
  }

  /** With a decimal sign of at most one character, the parts put together give the input, and
      with a one-character thousands separator the result is the prefix, the groups of the
      middle joined by the separator, and the decimal part: deleting the separators that were
      put in gives the input back. */
  lemma FormatOneCharacter(s: string, tSep: string, dSep: string)
    requires |tSep| == 1 && |dSep| <= 1
    ensures var (lhs, mid, tail) := Parts(s, dSep);
      s == lhs + mid + tail
      && Formatted(s, tSep, dSep) == lhs + Join(Groups(mid), tSep) + tail
      && Join(Groups(mid), "") == mid
  {
    var (lhs, mid, tail) := Parts(s, dSep);
    PartsJoin(s, dSep);
    FormattedByParts(s, tSep, dSep);
    GroupsFacts(mid);
    if mid != [] {
      GroupedJoin(mid, tSep);
    }
  }

  /** The parts put together give the input. */
  lemma PartsJoin(s: string, dSep: string)
    ensures var (lhs, mid, tail) := Parts(s, dSep); s == lhs + mid + tail
  {
    var n := Lead(s, dSep);
    var rest := s[n..];
    var cnt := DecimalAt(rest, dSep);
    if cnt > 0 {
      CutCover(s, n, cnt, dSep);
      assert Parts(s, dSep) == (s[..n], rest[..cnt], rest[cnt..]);
    } else {
      HeadCover(s, n);
      assert Parts(s, dSep) == (s[..n], rest, "");
    }
  }

  lemma HeadCover(s: string, n: nat)
    requires n <= |s|
    ensures s == s[..n] + s[n..]
  {
  }

  lemma CutCover(s: string, n: nat, cnt: int, sub: string)
    requires n <= |s| && OccursAt(s[n..], sub, cnt)
    ensures s == s[..n] + s[n..][..cnt] + s[n..][cnt..] && s[n..][cnt..][..|sub|] == sub
  {
    Around(s[n..], sub, cnt);
  }

  /** With a decimal sign of at most one character, the result of `Formatted` is made of the
      parts. */
  lemma FormattedByParts(s: string, tSep: string, dSep: string)
    requires |dSep| <= 1
    ensures var (lhs, mid, tail) := Parts(s, dSep);
      Formatted(s, tSep, dSep) == lhs + DropLast(Grouped(mid, tSep)) + tail
  {
    var n := Lead(s, dSep);
    var rest := s[n..];
    var cnt := DecimalAt(rest, dSep);
    if cnt > 0 {
      assert rest[cnt..cnt + 1] == dSep;
      assert dSep + rest[cnt + 1..] == rest[cnt..];
    }
  }

  /** The prefix holds no digit and no decimal sign, and the text after it starts with one. */
  lemma PrefixFacts(s: string, dSep: string)
    ensures var (lhs, mid, tail) := Parts(s, dSep);
      (forall i :: 0 <= i < |lhs| ==> !IsDigit(lhs[i]) && lhs[i] !in dSep)
      && (|lhs| < |s| ==> IsDigit(s[|lhs|]) || s[|lhs|] in dSep)
  {
    var (lhs, mid, tail) := Parts(s, dSep);
    forall i | 0 <= i < |lhs| ensures !IsDigit(lhs[i]) && lhs[i] !in dSep {
      NumCharIff(lhs[i], dSep);
    }
    if |lhs| < |s| {
      NumCharIff(s[|lhs|], dSep);
    }
  }

  /** A decimal part kept aside starts with the decimal sign and holds no other. */
  lemma TailFacts(s: string, dSep: string)
    requires |dSep| == 1
    ensures var (lhs, mid, tail) := Parts(s, dSep);
      tail != "" ==> tail[0] == dSep[0] && dSep[0] !in tail[1..] && mid != ""
  {
    var n := Lead(s, dSep);
    var rest := s[n..];
    assert dSep == [dSep[0]];
    var cnt := RFind(rest, [dSep[0]]);
    if cnt > 0 {
      assert Parts(s, dSep) == (s[..n], rest[..cnt], rest[cnt..]);
      LastSignTail(rest, dSep[0], cnt);
    }
  }

  /** The text from the last occurrence of `c` on starts with `c` and holds no other. */
  lemma LastSignTail(rest: string, c: char, cnt: int)
    requires cnt == RFind(rest, [c]) && cnt > 0
    ensures rest[..cnt] != "" && rest[cnt..] != "" && rest[cnt..][0] == c && c !in rest[cnt..][1..]
  {
    RFindChar(rest, c);
    var tail := rest[cnt..];
    forall j | 0 <= j < |tail[1..]| ensures tail[1..][j] != c {
      assert tail[1..][j] == rest[cnt + 1 + j];
    }
  }

  // Where the code and its evident purpose part.

  /** As written, an empty thousands separator loses the last digit: `splt[:-1]` always drops
      one character, which is a digit when no separator was appended. */
  lemma EmptySeparatorDropsDigit(d: string)
    requires d != [] && AllDigits(d)
    ensures Formatted(d, "", ".") == d[..|d| - 1]
  {
    NumCharIff(d[0], ".");
    assert Lead(d, ".") == 0;
    assert d[0..] == d && d[..0] == "";
    NoDecimalSign(d);
    assert Parts(d, ".") == ("", d, "");
    FormattedByParts(d, "", ".");
    GroupedJoin(d, "");
    GroupsFacts(d);
    assert Grouped(d, "") == d;
  }

  /** A text of digits has no decimal point, so `rfind` gives -1. */
  lemma NoDecimalSign(d: string)
    requires AllDigits(d)
    ensures DecimalAt(d, ".") == -1
  {
    OccursChar(d, '.');
    assert forall i :: 0 <= i < |d| ==> d[i] != '.';
  }

  /** As written, a number that starts with its decimal point has its decimals grouped:
      `rfind` returns 0 there, and the test `cnt > 0` treats that as no decimal point, so the
      whole text goes through the grouping loop and gains a separator once it has more than
      three characters. */
  lemma LeadingDecimalGrouped(d: string)
    requires AllDigits(d)
    ensures Formatted("." + d, ",", ".") == Join(Groups("." + d), ",")
    ensures |d| >= 3 ==> |Formatted("." + d, ",", ".")| == |"." + d| + |Groups("." + d)| - 1
                         && |Formatted("." + d, ",", ".")| > |"." + d|
  {
    var s := "." + d;
    assert s[0] == '.';
    NumCharIff('.', ".");
    assert Lead(s, ".") == 0;
    assert s[0..] == s && s[..0] == "";
    LastPointFirst(d);
    GroupedJoin(s, ",");
    GroupsFacts(s);
    GroupsJoinLength(s, ",");
    var j := Join(Groups(s), ",");
    assert DropLast(j + ",") == j;
  }

  /** As written, a decimal sign of two or more characters is partly repeated: `rhs = dSep +
      s[cnt+1:]` skips only the sign's first character, so its other characters come twice.
      With the sign `<>`, `1234<>5` becomes `1,234<>>5`. */
  lemma LongSignRepeated(d: string, e: string)
    requires d != [] && AllDigits(d) && AllDigits(e)
    ensures Formatted(d + "<>" + e, ",", "<>") == Join(Groups(d), ",") + "<>>" + e
  {
    var s := d + "<>" + e;
    LongSignAt(d, e);
    SignAfterDigits(s, ",", "<>", |d|);
    DropLastGrouped(d, ",");
    var j := Join(Groups(d), ",");
    Assoc(j + "<>", ">", e);
    Assoc(j, "<>", ">");
    assert "<>" + ">" == "<>>";
  }

  /** Dropping the last character of the grouped digits removes the final one-character
      separator. */
  lemma DropLastGrouped(d: string, tSep: string)
    requires d != [] && |tSep| == 1
    ensures DropLast(Grouped(d, tSep)) == Join(Groups(d), tSep)
  {
    GroupedJoin(d, tSep);
    var j := Join(Groups(d), tSep);
    assert DropLast(j + tSep) == j;
  }

  /** How `Formatted` reads a text without prefix whose last decimal sign is at `cnt > 0`. */
  lemma SignAfterDigits(s: string, tSep: string, dSep: string, cnt: nat)
    requires Lead(s, dSep) == 0 && DecimalAt(s, dSep) == cnt && cnt > 0
    ensures Formatted(s, tSep, dSep) == DropLast(Grouped(s[..cnt], tSep)) + dSep + s[cnt + 1..]
  {
    assert s[0..] == s && s[..0] == "";
  }

  /** How `FixedParts` cuts a text without prefix whose last decimal sign is at `cnt`. */
  lemma FixedSignAt(s: string, dSep: string, cnt: nat)
    requires Lead(s, dSep) == 0 && DecimalAt(s, dSep) == cnt
    ensures FixedParts(s, dSep) == ("", s[..cnt], s[cnt..])
  {
    assert s[0..] == s && s[..0] == "";
  }

  /** In `d<>e` with digits `d` and `e`, the prefix is empty and the last `<>` is the one after
      `d`. */
  lemma LongSignAt(d: string, e: string)
    requires d != [] && AllDigits(d) && AllDigits(e)
    ensures var s := d + "<>" + e;
      Lead(s, "<>") == 0 && DecimalAt(s, "<>") == |d|
      && s[..0] == "" && s[0..] == s && s[..|d|] == d && s[|d|..] == "<>" + e
      && s[|d| + 1..] == ">" + e
  {
    var s := d + "<>" + e;
    NumCharIff(s[0], "<>");
    assert s[|d|..|d| + 2] == "<>";
    assert OccursAt(s, "<>", |d|);
    forall i | |d| < i <= |s| ensures !OccursAt(s, "<>", i) {
      if i + 2 <= |s| {
        assert s[i..i + 2][0] == s[i];
        if i > |d| + 1 {
          assert s[i] == e[i - |d| - 2];
        }
      }
    }
  }

  /** With the correction, the decimal part keeps its sign once: `1234<>5` becomes `1,234<>5`. */
  lemma FixedLongSign(d: string, e: string)
    requires d != [] && AllDigits(d) && AllDigits(e)
    ensures FormattedFixed(d + "<>" + e, ",", "<>") == Join(Groups(d), ",") + "<>" + e
  {
    var s := d + "<>" + e;
    LongSignAt(d, e);
    FixedSignAt(s, "<>", |d|);
    FixedGrouping(d, ",");
    var j := Join(Groups(d), ",");
    Assoc(j, "<>", e);
    assert "" + j == j;
  }

  /** In `.` followed by digits, the only and so the last decimal point is at index 0. */
  lemma LastPointFirst(d: string)
    requires AllDigits(d)
    ensures DecimalAt("." + d, ".") == 0
  {
    var s := "." + d;
    OccursChar(s, '.');
    assert forall i :: 1 <= i < |s| ==> s[i] == d[i - 1] && s[i] != '.';
    assert OccursAt(s, ".", 0);
  }

  /** `x[:len(x) - k]`. */
  function DropSuffix(x: string, k: nat): string
  {
    if |x| >= k then x[..|x| - k] else ""
  }

  /** The parts with the slips corrected: the decimal part starts at the last decimal sign
      wherever it stands, even at the front, and runs from the whole sign to the end. */
  function FixedParts(s: string, dSep: string): (string, string, string)
  {
    var n := Lead(s, dSep);
    var rest := s[n..];
    var cnt := DecimalAt(rest, dSep);
    if cnt >= 0 then (s[..n], rest[..cnt], rest[cnt..]) else (s[..n], rest, "")
  }

  /** `FormatNumber` as evidently intended: the separator appended after the last group is
      removed whatever its length, a decimal part at the front is kept apart, and a decimal
      sign of several characters is kept once. */
  function FormattedFixed(s: string, tSep: string, dSep: string): string
  {
    var (lhs, mid, tail) := FixedParts(s, dSep);
    lhs + DropSuffix(Grouped(mid, tSep), |tSep|) + tail
  }

  /** For every pair of separators, the corrected result is the prefix, the groups of the middle
      joined by the thousands separator, and the decimal part, and those parts make up the
      input: deleting the separators that were put in gives the input back. */
  lemma FixedFormat(s: string, tSep: string, dSep: string)
    ensures var (lhs, mid, tail) := FixedParts(s, dSep);
      s == lhs + mid + tail
      && FormattedFixed(s, tSep, dSep) == lhs + Join(Groups(mid), tSep) + tail
      && Join(Groups(mid), "") == mid
      && (tail != "" ==> |dSep| > 0 && tail[..|dSep|] == dSep)
  {
    var (lhs, mid, tail) := FixedParts(s, dSep);
    FixedPartsJoin(s, dSep);
    FixedGrouping(mid, tSep);
    GroupsFacts(mid);
  }

  lemma FixedPartsJoin(s: string, dSep: string)
    ensures var (lhs, mid, tail) := FixedParts(s, dSep);
      s == lhs + mid + tail && (tail != "" ==> |dSep| > 0 && tail[..|dSep|] == dSep)
  {
    var n := Lead(s, dSep);
    var rest := s[n..];
    var cnt := DecimalAt(rest, dSep);
    if cnt >= 0 {
      CutCover(s, n, cnt, dSep);
      assert FixedParts(s, dSep) == (s[..n], rest[..cnt], rest[cnt..]);
    } else {
      HeadCover(s, n);
      assert FixedParts(s, dSep) == (s[..n], rest, "");
    }
  }


  /** Removing the last separator, whatever its length, leaves the groups joined. */
  lemma FixedGrouping(mid: string, tSep: string)
    ensures DropSuffix(Grouped(mid, tSep), |tSep|) == Join(Groups(mid), tSep)
  {
    if mid != [] {
      GroupedJoin(mid, tSep);
      var j := Join(Groups(mid), tSep);
      assert (j + tSep)[..|j + tSep| - |tSep|] == j;
    }
  }

  /** With the correction, an empty thousands separator leaves the input unchanged. */
  lemma FixedEmptySeparator(s: string, dSep: string)
    ensures FormattedFixed(s, "", dSep) == s
  {
    FixedFormat(s, "", dSep);
  }

  /** With the correction, a number that starts with its decimal point is left as it is. */
  lemma FixedLeadingDecimal(d: string)
    requires AllDigits(d)
    ensures FormattedFixed("." + d, ",", ".") == "." + d
  {
    var s := "." + d;
    assert s[0] == '.';
    NumCharIff('.', ".");
    assert Lead(s, ".") == 0;
    assert s[0..] == s && s[..0] == "";
    LastPointFirst(d);
    FixedFormat(s, ",", ".");
    assert Groups("") == [];
  }

  /** Where the as-written code already does what is meant, the correction agrees with it: a
      one-character separator, and a decimal point, if any, after the first character of the
      number. */
  lemma FixedAgrees(s: string, tSep: string, dSep: string)
    requires |tSep| == 1 && |dSep| <= 1
    requires DecimalAt(s[Lead(s, dSep)..], dSep) != 0
    ensures FormattedFixed(s, tSep, dSep) == Formatted(s, tSep, dSep)
  {
    FormatOneCharacter(s, tSep, dSep);
    FixedFormat(s, tSep, dSep);
  }
}

/** `ParseSqlout` in Oracle.py: the lines of SQL*Plus output that start with a record key are
    numbered from 1 and each is cut into the columns after the first separator. */
module SqlOutput {
  import opened Text

  /** The lines that start with the key, in order. The pattern `'^' + key + '.*'` has no
      multi-line flag, so it only asks for the key at the start of the line. */
  function Matching(lines: seq<string>, key: string): seq<string>
    decreases |lines|
  {
    if lines == [] then []
    else
      var n := |lines| - 1;
      Matching(lines[..n], key) + (if StartsWith(lines[n], key) then [lines[n]] else [])
  }

  /** Each matching line under its number, holding the columns after the first one. A
      separator `""` makes every `split` raise `ValueError`, which the bare `except` swallows
      before the counter moves, so nothing is recorded. */
  function Rows(matched: seq<string>, colsep: string): map<int, seq<string>>
    decreases |matched|
  {
    if colsep == "" || matched == [] then map[]
    else
      var n := |matched| - 1;
      Rows(matched[..n], colsep)[n + 1 := Split(matched[n], colsep)[1..]]
  }

  /** The `exit()` after each record raises `SystemExit`, which the same bare `except` catches,
      so the loop goes on to the end of the output. */
  method ParseSqlout(sqlout: string, key: string, colsep: string) returns (values: map<int, seq<string>>)
    ensures values == Rows(Matching(Split(sqlout, "\n"), key), colsep)
  {
    values := map[];
    var i := 0;
    var lines := Split(sqlout, "\n");
    var j := 0;
    while j < |lines|
      invariant 0 <= j <= |lines|
      invariant i == if colsep == "" then 0 else |Matching(lines[..j], key)|
      invariant values == Rows(Matching(lines[..j], key), colsep)
    {
      assert lines[..j + 1][..j] == lines[..j];
      var line := lines[j];
      ghost var m := Matching(lines[..j], key);
      assert lines[..j + 1][j] == line;
      assert Matching(lines[..j + 1], key) == m + (if StartsWith(line, key) then [line] else []);
      if StartsWith(line, key) {
        assert (m + [line])[..|m|] == m && (m + [line])[|m|] == line;
        if colsep != "" {
          var parts := Split(line, colsep);
          i := i + 1;
          values := values[i := parts[1..]];
          assert values == Rows(m + [line], colsep);
        }
      } else {
        assert m + [] == m;
      }
      j := j + 1;
    }
    assert lines[..j] == lines;
  }

  // Properties.

  /** A line is kept exactly when it starts with the key, and the kept lines keep their order. */
  lemma {:induction false} MatchingAppend(a: seq<string>, b: seq<string>, key: string)
    ensures Matching(a + b, key) == Matching(a, key) + Matching(b, key)
    decreases |b|
  {
    if b == [] {
      assert a + b == a;
    } else {
      var n := |b| - 1;
      assert (a + b)[..|a + b| - 1] == a + b[..n];
      assert (a + b)[|a + b| - 1] == b[n];
      MatchingAppend(a, b[..n], key);
    }
  }

  /** A single line is kept exactly when it starts with the key. */
  lemma MatchingOne(line: string, key: string)
    ensures Matching([line], key) == if StartsWith(line, key) then [line] else []
  {
    assert [line][..0] == [];
  }

  /** Every kept line is one of the lines and starts with the key, and every line of the
      output that starts with the key is kept. */
  lemma {:induction false} MatchingMembers(lines: seq<string>, key: string)
    ensures forall x :: x in Matching(lines, key) <==> x in lines && StartsWith(x, key)
    decreases |lines|
  {
    if lines != [] {
      var n := |lines| - 1;
      MatchingMembers(lines[..n], key);
      assert lines == lines[..n] + [lines[n]];
      assert forall x :: x in lines <==> x in lines[..n] || x == lines[n];
    }
  }

  /** The records are numbered 1 to the number of matching lines, and record `i` holds the
      columns of the `i`-th matching line after its first. */
  lemma {:induction false} RowsFacts(matched: seq<string>, colsep: string)
    requires colsep != ""
    ensures var rows := Rows(matched, colsep);
      (forall i :: i in rows <==> 1 <= i <= |matched|)
      && forall i :: 0 <= i < |matched| ==> rows[i + 1] == Split(matched[i], colsep)[1..]
    decreases |matched|
  {
    if matched != [] {
      var n := |matched| - 1;
      RowsFacts(matched[..n], colsep);
      assert forall i :: 0 <= i < n ==> matched[..n][i] == matched[i];
    }
  }

  /** Putting the first column back in front of a record and joining with the separator gives
      the line again. */
  lemma RecordRestoresLine(line: string, colsep: string)
    requires colsep != ""
    ensures Join([Split(line, colsep)[0]] + Split(line, colsep)[1..], colsep) == line
  {
    var parts := Split(line, colsep);
    SplitJoin(line, colsep);
    assert parts == [parts[0]] + parts[1..];
  }

  /** An empty separator records nothing. */
  lemma RowsEmptySeparator(matched: seq<string>)
    ensures Rows(matched, "") == map[]
  {
  }

  /** A record line `key~c1~...~cn` with a one-character separator that occurs in neither the
      key nor the columns gives the record `[c1, ..., cn]`. */
  lemma RowOfRecord(key: string, cols: seq<string>, c: char)
    requires c !in key && forall k :: 0 <= k < |cols| ==> c !in cols[k]
    ensures Rows([Join([key] + cols, [c])], [c]) == map[1 := cols]
  {
    var line := Join([key] + cols, [c]);
    RecordColumns(key, cols, c);
    assert [line][..0] == [];
    assert Rows([line], [c]) == map[][1 := Split(line, [c])[1..]];
  }

  lemma RecordColumns(key: string, cols: seq<string>, c: char)
    requires c !in key && forall k :: 0 <= k < |cols| ==> c !in cols[k]
    ensures Split(Join([key] + cols, [c]), [c])[1..] == cols
  {
    var parts := [key] + cols;
    assert parts[1..] == cols;
    forall k | 0 <= k < |parts| ensures c !in parts[k] {
      if k > 0 {
        assert parts[k] == cols[k - 1];
      }
    }
    JoinSplitChar(parts, c);
  }
}

/** `ErrorCheck` in Oracle.py: the facility codes to look for are chosen from the catalog and a
    component list, and every line of a tool's output is searched for each of them followed by
    a hyphen and four digits. */
module ErrorScan {
  import opened Failures
  import opened Text
  import opened Facilities
  import opened Sorting

  /** One entry of the error stack: the matched text and the whole line it was found in. */
  datatype Finding = Finding(code: string, line: string)

  /** The pair `(rc, ErrorStack)` that `ErrorCheck` returns. */
  datatype Verdict = Verdict(rc: int, errors: seq<Finding>)

  /** The pattern `fac + '-\d\d\d\d'` matches `line` at index `p`. */
  predicate CodeAt(line: string, fac: string, p: int)
  {
    0 <= p && p + |fac| + 5 <= |line| && line[p..p + |fac|] == fac && line[p + |fac|] == '-'
    && AllDigits(line[p + |fac| + 1..p + |fac| + 5])
  }

  /** The leftmost match at or after `k`, or -1. */
  function FirstCodeFrom(line: string, fac: string, k: nat): (p: int)
    ensures p == -1 || (k <= p && CodeAt(line, fac, p))
    ensures p == -1 ==> forall i :: k <= i ==> !CodeAt(line, fac, i)
    ensures p != -1 ==> forall i :: k <= i < p ==> !CodeAt(line, fac, i)
    decreases |line| - k
  {
    if k + |fac| + 5 > |line| then -1
    else if CodeAt(line, fac, k) then k
    else FirstCodeFrom(line, fac, k + 1)
  }

  /** `search(fac + '-\d\d\d\d', line).group()`, or `None` when the search fails. The text is
      the facility, a hyphen and exactly four digits, whatever follows them in the line. */
  function Match(line: string, fac: string): (m: Option<string>)
    ensures m.None? <==> forall p :: !CodeAt(line, fac, p)
    ensures m.Some? ==> exists p :: CodeAt(line, fac, p) && m.value == line[p..p + |fac| + 5]
                                    && forall q :: q < p ==> !CodeAt(line, fac, q)
    ensures m.Some? ==> |m.value| == |fac| + 5 && m.value[..|fac|] == fac && m.value[|fac|] == '-'
                        && AllDigits(m.value[|fac| + 1..])
  {
    var p := FirstCodeFrom(line, fac, 0);
    if p < 0 then None
    else
      assert line[p..p + |fac| + 5][|fac| + 1..] == line[p + |fac| + 1..p + |fac| + 5];
      Some(line[p..p + |fac| + 5])
  }

  /** `n` copies of `x`. */
  function Repeat(x: string, n: nat): (r: seq<string>)
    ensures |r| == n && forall i :: 0 <= i < n ==> r[i] == x
  {
    seq(n, _ => x)
  }

  /** The first entry of the component list asks for every facility. */
  predicate AllComponents(comps: seq<string>)
  {
    comps != [] && Upper(comps[0]) == "ALL_COMPONENTS"
  }

  /** What one catalog key adds to the candidate list: its upper-cased facility once per entry
      of the component list when all components are asked for, and otherwise once per entry
      equal to its component. */
  function KeyCandidates(key: string, component: string, comps: seq<string>): seq<string>
  {
    if AllComponents(comps) then Repeat(Upper(key), |comps|)
    else Repeat(Upper(key), multiset(comps)[component])
  }

  /** The candidate list for the keys in the order given. */
  function Candidates(keys: seq<string>, cat: Catalog, comps: seq<string>): seq<string>
    requires forall k :: k in keys ==> k in cat
    decreases |keys|
  {
    if keys == [] then []
    else
      var n := |keys| - 1;
      Candidates(keys[..n], cat, comps) + KeyCandidates(keys[n], cat[keys[n]].component, comps)
  }

  /** The findings for one line, one per candidate whose code it contains, in candidate order. */
  function LineFindings(line: string, facs: seq<string>): seq<Finding>
    decreases |facs|
  {
    if facs == [] then []
    else
      var m := Match(line, facs[|facs| - 1]);
      LineFindings(line, facs[..|facs| - 1]) + (if m.Some? then [Finding(m.value, line)] else [])
  }

  /** The findings for a sequence of lines, in line order. */
  function ScanLines(lines: seq<string>, facs: seq<string>): seq<Finding>
    decreases |lines|
  {
    if lines == [] then []
    else ScanLines(lines[..|lines| - 1], facs) + LineFindings(lines[|lines| - 1], facs)
  }

  /** What `ErrorCheck(stdout, comps)` returns, or the failure that ends it. With no Oracle home
      it returns `(1, [])` without scanning; an unreadable catalog ends the program; an empty
      component list fails on `ComponentList[0]` as soon as there is a key to look at. */
  ghost function ErrorCheckSpec(stdout: string, comps: seq<string>, home: Option<string>,
                                files: map<string, string>): Result<Verdict>
  {
    if home.None? then Ok(Verdict(1, []))
    else
      var path := CatalogPath(home.value);
      if path !in files then Err(CatalogUnreadable(path))
      else
        var cat := Loaded(Split(files[path], "\n"));
        if cat != map[] && comps == [] then Err(IndexError)
        else
          var es := ScanLines(Split(stdout, "\n"), CandidateList(cat, comps));
          Ok(Verdict(if es == [] then 0 else 1, es))
  }

  /** The candidate list that `ErrorCheck` builds: the catalog keys in sorted order. */
  ghost function CandidateList(cat: Catalog, comps: seq<string>): seq<string>
  {
    Candidates(SortedSeq(cat.Keys), cat, comps)
  }

  method ErrorCheck(stdout: string, comps: seq<string>, home: Option<string>,
                    files: map<string, string>) returns (r: Result<Verdict>)
    ensures r == ErrorCheckSpec(stdout, comps, home, files)
  {
    if home.None? {
      return Ok(Verdict(1, []));
    }
    var loaded := LoadFacilities(files, CatalogPath(home.value));
    if loaded.Err? {
      return Err(loaded.error);
    }
    var cat := loaded.value;
    var keys := SortStrings(cat.Keys);
    var facs := SelectCandidates(keys, cat, comps);
    if facs.Err? {
      return Err(facs.error);
    }
    var rc, stack := ScanOutput(Split(stdout, "\n"), facs.value);
    return Ok(Verdict(rc, stack));
  }

  /** The scan of the output: each line in turn, each candidate in turn within a line. */
  method ScanOutput(lines: seq<string>, facs: seq<string>) returns (rc: int, stack: seq<Finding>)
    ensures stack == ScanLines(lines, facs)
    ensures rc == if stack == [] then 0 else 1
  {
    rc := 0;
    stack := [];
    var i := 0;
    while i < |lines|
      invariant 0 <= i <= |lines|
      invariant stack == ScanLines(lines[..i], facs)
      invariant rc == if stack == [] then 0 else 1
    {
      var found := ScanLine(lines[i], facs);
      if found != [] {
        rc := 1;
      }
      stack := stack + found;
      ScanLinesPrefix(lines, i, facs);
      i := i + 1;
    }
    assert lines[..i] == lines;
  }

  /** The inner loop of the scan: every candidate is searched for in one line. */
  method ScanLine(line: string, facs: seq<string>) returns (found: seq<Finding>)
    ensures found == LineFindings(line, facs)
  {
    found := [];
    var j := 0;
    while j < |facs|
      invariant 0 <= j <= |facs|
      invariant found == LineFindings(line, facs[..j])
    {
      var m := Match(line, facs[j]);
      if m.Some? {
        found := found + [Finding(m.value, line)];
      }
      LineFindingsPrefix(line, facs, j);
      j := j + 1;
    }
    assert facs[..j] == facs;
  }

  lemma ScanLinesPrefix(lines: seq<string>, i: nat, facs: seq<string>)
    requires i < |lines|
    ensures ScanLines(lines[..i + 1], facs) == ScanLines(lines[..i], facs) + LineFindings(lines[i], facs)
  {
    assert lines[..i + 1][..i] == lines[..i];
  }

  lemma LineFindingsPrefix(line: string, facs: seq<string>, j: nat)
    requires j < |facs|
    ensures var m := Match(line, facs[j]);
      LineFindings(line, facs[..j + 1])
      == LineFindings(line, facs[..j]) + (if m.Some? then [Finding(m.value, line)] else [])
  {
    assert facs[..j + 1][..j] == facs[..j];
  }

  /** The first loop of `ErrorCheck`: the candidate list over the sorted keys. */
  method SelectCandidates(keys: seq<string>, cat: Catalog, comps: seq<string>)
    returns (r: Result<seq<string>>)
    requires forall k :: k in keys ==> k in cat
    ensures keys != [] && comps == [] ==> r == Err(IndexError)
    ensures keys == [] || comps != [] ==> r == Ok(Candidates(keys, cat, comps))
  {
    var facs: seq<string> := [];
    var k := 0;
    while k < |keys|
      invariant 0 <= k <= |keys|
      invariant facs == Candidates(keys[..k], cat, comps)
      invariant k > 0 ==> comps != []
    {
      if comps == [] {
        return Err(IndexError);
      }
      var more := SelectForKey(keys[k], cat[keys[k]].component, comps);
      facs := facs + more;
      CandidatesPrefix(keys, k, cat, comps);
      k := k + 1;
    }
    assert keys[..k] == keys;
    return Ok(facs);
  }

  /** The inner loop over the component list for one key. */
  method SelectForKey(key: string, component: string, comps: seq<string>) returns (more: seq<string>)
    requires comps != []
    ensures more == KeyCandidates(key, component, comps)
  {
    more := [];
    var j := 0;
    while j < |comps|
      invariant 0 <= j <= |comps|
      invariant AllComponents(comps) ==> more == Repeat(Upper(key), j)
      invariant !AllComponents(comps) ==> more == Repeat(Upper(key), multiset(comps[..j])[component])
    {
      assert comps[..j + 1] == comps[..j] + [comps[j]];
      if Upper(comps[0]) == "ALL_COMPONENTS" {
        more := more + [Upper(key)];
      } else if comps[j] == component {
        more := more + [Upper(key)];
      }
      j := j + 1;
    }
    assert comps[..j] == comps;
  }

  lemma CandidatesPrefix(keys: seq<string>, k: nat, cat: Catalog, comps: seq<string>)
    requires k < |keys| && forall x :: x in keys ==> x in cat
    ensures Candidates(keys[..k + 1], cat, comps)
      == Candidates(keys[..k], cat, comps) + KeyCandidates(keys[k], cat[keys[k]].component, comps)
  {
    assert keys[..k + 1][..k] == keys[..k];
  }

  // Properties of the scan.

  lemma {:induction false} LineFindingsSize(line: string, facs: seq<string>)
    ensures |LineFindings(line, facs)| <= |facs|
    decreases |facs|
  {
    if facs != [] {
      LineFindingsSize(line, facs[..|facs| - 1]);
    }
  }

  lemma {:induction false} LineFindingsEmpty(line: string, facs: seq<string>)
    ensures LineFindings(line, facs) == [] <==>
              LineClean(line, facs)
    decreases |facs|
  {
    if facs != [] {
      var n := |facs| - 1;
      var init := facs[..n];
      LineFindingsEmpty(line, init);
      CleanSnoc(line, facs);
    }
  }

  /** A line is clean of all candidates when it is clean of all but the last and of that one. */
  lemma CleanSnoc(line: string, facs: seq<string>)
    requires facs != []
    ensures LineClean(line, facs) <==>
              LineClean(line, facs[..|facs| - 1]) && Match(line, facs[|facs| - 1]).None?
  {
    var n := |facs| - 1;
    assert forall i :: 0 <= i < n ==> facs[..n][i] == facs[i];
  }

  lemma {:induction false} LineFindingsOrigin(line: string, facs: seq<string>)
    ensures forall f :: f in LineFindings(line, facs) ==>
              f.line == line && exists i :: 0 <= i < |facs| && Match(line, facs[i]) == Some(f.code)
    decreases |facs|
  {
    if facs != [] {
      var n := |facs| - 1;
      var init := facs[..n];
      LineFindingsOrigin(line, init);
      assert forall i :: 0 <= i < n ==> facs[i] == init[i];
    }
  }

  lemma {:induction false} ScanLinesSize(lines: seq<string>, facs: seq<string>)
    ensures |ScanLines(lines, facs)| <= |lines| * |facs|
    decreases |lines|
  {
    if lines != [] {
      var n := |lines| - 1;
      ScanLinesSize(lines[..n], facs);
      LineFindingsSize(lines[n], facs);
      assert |lines| * |facs| == n * |facs| + |facs|;
    }
  }

  /** No output line holds a code of any candidate facility. */
  ghost predicate NoCode(lines: seq<string>, facs: seq<string>)
  {
    forall k :: 0 <= k < |lines| ==> LineClean(lines[k], facs)
  }

  /** The line holds no code of any candidate facility. */
  ghost predicate LineClean(line: string, facs: seq<string>)
  {
    forall i, p :: 0 <= i < |facs| ==> !CodeAt(line, facs[i], p)
  }

  lemma {:induction false} ScanLinesEmpty(lines: seq<string>, facs: seq<string>)
    ensures ScanLines(lines, facs) == [] <==> NoCode(lines, facs)
    decreases |lines|
  {
    if lines != [] {
      var n := |lines| - 1;
      var init := lines[..n];
      ScanLinesEmpty(init, facs);
      LineFindingsEmpty(lines[n], facs);
      assert forall k :: 0 <= k < n ==> lines[k] == init[k];
    }
  }

  /** Every finding pairs one of the lines with the text matched there for some candidate. */
  lemma {:induction false} ScanLinesOrigin(lines: seq<string>, facs: seq<string>)
    ensures forall f :: f in ScanLines(lines, facs) ==>
              f.line in lines && exists i :: 0 <= i < |facs| && Match(f.line, facs[i]) == Some(f.code)
    decreases |lines|
  {
    if lines != [] {
      var n := |lines| - 1;
      var init := lines[..n];
      ScanLinesOrigin(init, facs);
      LineFindingsOrigin(lines[n], facs);
      assert forall x :: x in init ==> x in lines;
    }
  }

  /** Every candidate whose code occurs in the line gives a finding: the match is recorded. */
  lemma {:induction false} LineFindingsComplete(line: string, facs: seq<string>, i: nat)
    requires i < |facs| && Match(line, facs[i]).Some?
    ensures Finding(Match(line, facs[i]).value, line) in LineFindings(line, facs)
    decreases |facs|
  {
    var n := |facs| - 1;
    if i < n {
      assert facs[..n][i] == facs[i];
      LineFindingsComplete(line, facs[..n], i);
    }
  }

  /** Every output line and candidate whose code occurs in it give a finding in the stack. */
  lemma {:induction false} ScanLinesComplete(lines: seq<string>, facs: seq<string>, k: nat, i: nat)
    requires k < |lines| && i < |facs| && Match(lines[k], facs[i]).Some?
    ensures Finding(Match(lines[k], facs[i]).value, lines[k]) in ScanLines(lines, facs)
    decreases |lines|
  {
    var n := |lines| - 1;
    var init := lines[..n];
    var f := Finding(Match(lines[k], facs[i]).value, lines[k]);
    assert ScanLines(lines, facs) == ScanLines(init, facs) + LineFindings(lines[n], facs);
    if k < n {
      assert init[k] == lines[k];
      ScanLinesComplete(init, facs, k, i);
      assert f in ScanLines(init, facs);
    } else {
      LineFindingsComplete(lines[n], facs, i);
      assert f in LineFindings(lines[n], facs);
    }
  }

  /** Findings follow the order of the lines. */
  lemma {:induction false} ScanLinesAppend(a: seq<string>, b: seq<string>, facs: seq<string>)
    ensures ScanLines(a + b, facs) == ScanLines(a, facs) + ScanLines(b, facs)
    decreases |b|
  {
    if b == [] {
      assert a + b == a;
    } else {
      var n := |b| - 1;
      SnocSplit(a, b);
      ScanLinesAppend(a, b[..n], facs);
      Assoc(ScanLines(a, facs), ScanLines(b[..n], facs), LineFindings(b[n], facs));
    }
  }

  /** Once the catalog is read, `rc` is 0 exactly when no output line holds a candidate code,
      and the error stack is the scan of the output. */
  lemma ErrorCheckRc(stdout: string, comps: seq<string>, home: string, files: map<string, string>)
    requires CatalogPath(home) in files
    requires var cat := Loaded(Split(files[CatalogPath(home)], "\n")); cat == map[] || comps != []
    ensures var cat := Loaded(Split(files[CatalogPath(home)], "\n"));
      var lines := Split(stdout, "\n");
      var facs := CandidateList(cat, comps);
      var r := ErrorCheckSpec(stdout, comps, Some(home), files);
      r.Ok? && r.value.errors == ScanLines(lines, facs) &&
      (r.value.rc == 0 || r.value.rc == 1) &&
      (r.value.rc == 0 <==> NoCode(lines, facs))
  {
    var cat := Loaded(Split(files[CatalogPath(home)], "\n"));
    var lines := Split(stdout, "\n");
    var facs := CandidateList(cat, comps);
    var es := ScanLines(lines, facs);
    assert ErrorCheckSpec(stdout, comps, Some(home), files) == Ok(Verdict(if es == [] then 0 else 1, es));
    ScanLinesEmpty(lines, facs);
  }

  /** An unset Oracle home gives `(1, [])` whatever the output. */
  lemma ErrorCheckNoHome(stdout: string, comps: seq<string>, files: map<string, string>)
    ensures ErrorCheckSpec(stdout, comps, None, files) == Ok(Verdict(1, []))
  {
  }

  // Properties of the candidate list.

  /** A code is a candidate exactly when it is an upper-cased key whose component is asked for,
      or any upper-cased key when all components are. */
  lemma {:induction false} CandidatesMembers(keys: seq<string>, cat: Catalog, comps: seq<string>, x: string)
    requires forall k :: k in keys ==> k in cat
    ensures x in Candidates(keys, cat, comps) <==>
              exists k :: k in keys && x == Upper(k) && (AllComponents(comps) || cat[k].component in comps)
    decreases |keys|
  {
    if keys != [] {
      var n := |keys| - 1;
      var init := keys[..n];
      assert forall k :: k in keys <==> k in init || k == keys[n];
      CandidatesMembers(init, cat, comps, x);
      var comp := cat[keys[n]].component;
      RepeatMembers(Upper(keys[n]), |comps|, x);
      RepeatMembers(Upper(keys[n]), multiset(comps)[comp], x);
    }
  }

  lemma RepeatMembers(y: string, n: nat, x: string)
    ensures x in Repeat(y, n) <==> n > 0 && x == y
  {
    if n > 0 {
      assert Repeat(y, n)[0] == y;
    }
  }

  /** Asking for all components lists every key once per entry of the component list. */
  lemma {:induction false} CandidatesAllCount(keys: seq<string>, cat: Catalog, comps: seq<string>)
    requires forall k :: k in keys ==> k in cat
    requires AllComponents(comps)
    ensures |Candidates(keys, cat, comps)| == |keys| * |comps|
    decreases |keys|
  {
    if keys != [] {
      var n := |keys| - 1;
      var init := keys[..n];
      assert forall k :: k in init ==> k in keys;
      CandidatesAllCount(init, cat, comps);
      assert Candidates(keys, cat, comps) == Candidates(init, cat, comps) + KeyCandidates(keys[n], cat[keys[n]].component, comps);
      MulStep(|keys|, n, |comps|);
    }
  }

  lemma MulStep(m: nat, n: nat, c: nat)
    requires m == n + 1
    ensures m * c == n * c + c
  {
  }

  /** Candidates follow the order of the keys. */
  lemma {:induction false} CandidatesAppend(a: seq<string>, b: seq<string>, cat: Catalog, comps: seq<string>)
    requires forall k :: k in a ==> k in cat
    requires forall k :: k in b ==> k in cat
    ensures forall k :: k in a + b ==> k in cat
    ensures Candidates(a + b, cat, comps) == Candidates(a, cat, comps) + Candidates(b, cat, comps)
    decreases |b|
  {
    if b == [] {
      assert a + b == a;
    } else {
      var n := |b| - 1;
      SnocSplit(a, b);
      assert forall k :: k in b[..n] ==> k in b;
      CandidatesAppend(a, b[..n], cat, comps);
      Assoc(Candidates(a, cat, comps), Candidates(b[..n], cat, comps), KeyCandidates(b[n], cat[b[n]].component, comps));
    }
  }

  // Properties of the pattern.

  /** A line that starts with the facility, a hyphen and four digits yields exactly those
      characters, however many digits follow: `ORA-00001` is recorded as `ORA-0000`. */
  lemma MatchFourDigits(fac: string, digits: string, rest: string)
    requires |digits| == 4 && AllDigits(digits)
    ensures Match(fac + "-" + digits + rest, fac) == Some(fac + "-" + digits)
  {
    var line := fac + "-" + digits + rest;
    assert line[..|fac|] == fac;
    assert line[|fac| + 1..|fac| + 5] == digits;
    assert CodeAt(line, fac, 0);
    assert line[0..|fac| + 5] == fac + "-" + digits;
  }

  /** A facility followed by a hyphen and fewer than four digits is no code at that place:
      the pattern needs four digits right after the hyphen. */
  lemma ShortCodeNotAt(pre: string, fac: string, ds: string, post: string)
    requires AllDigits(ds) && |ds| < 4 && (post == [] || !IsDigit(post[0]))
    ensures !CodeAt(pre + fac + "-" + ds + post, fac, |pre|)
  {
    var line := pre + fac + "-" + ds + post;
    var p := |pre|;
    var k := p + |fac| + 1 + |ds|;
    var head := pre + fac + "-" + ds;
    assert |head| == k && line == head + post;
    if post == [] {
      assert |line| == k;
    } else {
      assert line[k] == post[0];
      if p + |fac| + 5 <= |line| {
        var code := line[p + |fac| + 1..p + |fac| + 5];
        assert code[|ds|] == line[k];
        assert !IsDigit(code[|ds|]);
        assert !AllDigits(code);
      }
    }
  }

  /** A code with fewer than four digits is not found, wherever it stands: `x ORA-1 y` holds
      no code of `ORA`. */
  lemma ShortCodeLine()
    ensures Match("x ORA-1 y", "ORA") == None
  {
    var line := "x ORA-1 y";
    ShortCodeNotAt("x ", "ORA", "1", " y");
    assert "x " + "ORA" + "-" + "1" + " y" == line;
    forall p ensures !CodeAt(line, "ORA", p) {
      if p == 0 {
        assert line[0..3][0] == 'x';
      } else if p == 1 {
        assert line[1..4][0] == ' ';
      }
    }
  }

  lemma MatchExamples()
    ensures Match("ORA-00001", "ORA") == Some("ORA-0000")
    ensures Match("ORA-1", "ORA") == None
  {
    MatchFourDigits("ORA", "0000", "1");
    assert "ORA" + "-" + "0000" + "1" == "ORA-00001";
    assert "ORA" + "-" + "0000" == "ORA-0000";
  }
}

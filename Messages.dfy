/** `LookupError` in Oracle.py: an error code `FAC-nnnn` names a facility in the catalog, whose
    component gives the message file `<home>/<component>/mesg/<fac>us.msg`; the message is the
    header line for the code followed by the `//` comment lines just below it. */
module Messages {
  import opened Failures
  import opened Text
  import opened Facilities

  /** The anchored pattern `'[0]*' + code + ','`: zero or more `0`, the code, then a comma, at
      the start of the line. */
  predicate HeaderMatch(line: string, code: string)
    decreases |line|
  {
    StartsWith(line, code + ",") || (|line| > 0 && line[0] == '0' && HeaderMatch(line[1..], code))
  }

  predicate AllZeros(s: string)
  {
    forall i :: 0 <= i < |s| ==> s[i] == '0'
  }

  /** The lines collected below a header: each line that starts with `//`, stripped, up to the
      first line that does not. */
  function Continuation(lines: seq<string>): seq<string>
    decreases |lines|
  {
    if lines == [] || !StartsWith(lines[0], "//") then []
    else [Strip(lines[0])] + Continuation(lines[1..])
  }

  /** One pass over the message file for `code`: the first header line, stripped, and its
      continuation; nothing when no line is a header. */
  function Block(lines: seq<string>, code: string): seq<string>
    decreases |lines|
  {
    if lines == [] then []
    else if HeaderMatch(lines[0], code) then [Strip(lines[0])] + Continuation(lines[1..])
    else Block(lines[1..], code)
  }

  /** The pass over the lines with the `HeaderFound` flag, returning as soon as a line after
      the header does not start with `//`. */
  method ExtractBlock(lines: seq<string>, code: string) returns (msgs: seq<string>)
    ensures msgs == Block(lines, code)
  {
    msgs := [];
    var headerFound := false;
    var rest := lines;
    while rest != []
      invariant !headerFound ==> msgs == []
      invariant Block(lines, code) == msgs + Remaining(rest, code, headerFound)
      decreases |rest|
    {
      var take, stop := ReadBlockLine(rest, code, headerFound);
      if stop {
        return msgs;
      }
      if take {
        Assoc(msgs, [Strip(rest[0])], Remaining(rest[1..], code, true));
        msgs := msgs + [Strip(rest[0])];
        headerFound := true;
      }
      rest := rest[1..];
    }
  }

  /** What is still to be collected from the lines not yet read, before and after the header. */
  function Remaining(rest: seq<string>, code: string, headerFound: bool): seq<string>
  {
    if headerFound then Continuation(rest) else Block(rest, code)
  }

  /** The tests on one line: before the header, whether it is the header; after it, whether it
      continues the message (`take`) or ends it (`stop`). */
  method ReadBlockLine(rest: seq<string>, code: string, headerFound: bool) returns (take: bool, stop: bool)
    requires rest != []
    ensures stop ==> headerFound && !take
    ensures !take && !stop ==> !headerFound
    ensures Remaining(rest, code, headerFound) ==
      if take then [Strip(rest[0])] + Remaining(rest[1..], code, true)
      else if stop then []
      else Remaining(rest[1..], code, false)
  {
    var line := rest[0];
    if headerFound {
      take := StartsWith(line, "//");
      stop := !take;
    } else {
      take := HeaderMatch(line, code);
      stop := false;
    }
  }

  lemma ZerosCons(z: string)
    requires AllZeros(z)
    ensures AllZeros(['0'] + z)
  {
    assert forall i :: 1 <= i < |z| + 1 ==> (['0'] + z)[i] == z[i - 1];
  }

  /** The digits after any leading zeros. */
  function DropZeros(d: string): (r: string)
    ensures |r| <= |d| && d == d[..|d| - |r|] + r && AllZeros(d[..|d| - |r|])
    ensures r == [] || r[0] != '0'
    decreases |d|
  {
    if d != [] && d[0] == '0' then
      var r := DropZeros(d[1..]);
      var z := d[1..][..|d| - 1 - |r|];
      assert d[..|d| - |r|] == [d[0]] + z;
      ZerosCons(z);
      r
    else
      assert d[..0] == [];
      d
  }

  /** `str(int(code))` when `int` accepts the text: blanks around it stripped, an optional sign,
      then ASCII digits, written back without leading zeros; `None` where `int` raises
      `ValueError`. */
  function IntLiteral(code: string): Option<string>
  {
    SignedLiteral(Strip(code))
  }

  /** An optional sign, then the digits. */
  function SignedLiteral(t: string): Option<string>
  {
    if |t| > 0 && t[0] == '+' then DigitsLiteral(t[1..], false)
    else if |t| > 0 && t[0] == '-' then DigitsLiteral(t[1..], true)
    else DigitsLiteral(t, false)
  }

  /** A non-empty run of digits without its leading zeros; zero is never negative. */
  function DigitsLiteral(d: string, negative: bool): Option<string>
  {
    if d == [] || !AllDigits(d) then None
    else
      var m := DropZeros(d);
      if m == [] then Some("0")
      else if negative then Some("-" + m)
      else Some(m)
  }

  /** The message file for a facility and its component. */
  function MessagesPath(home: string, component: string, fac: string): string
  {
    home + "/" + component + "/" + "mesg" + "/" + fac + "us.msg"
  }

  /** What `LookupError(error)` returns, or the failure that ends it. */
  function LookupSpec(error: string, home: Option<string>, files: map<string, string>): Result<seq<string>>
  {
    if home.None? then Err(HomeUnset)
    else
      var path := CatalogPath(home.value);
      if path !in files then Err(CatalogUnreadable(path))
      else
        var cat := Loaded(Split(files[path], "\n"));
        var parts := Split(Lower(error), "-");
        if |parts| != 2 then Err(MalformedCode(error))
        else
          var fac := parts[0];
          var code := parts[1];
          if fac !in cat then Err(UnknownFacility(fac))
          else
            var mpath := MessagesPath(home.value, cat[fac].component, fac);
            if mpath !in files then Err(MessagesUnreadable(mpath))
            else
              SearchMessages(ReadLines(files[mpath]), code)
  }

  /** The two passes over the message file: the code as given, then, when nothing was found,
      the code as `str(int(code))`, which fails when `int` rejects it. */
  function SearchMessages(lines: seq<string>, code: string): Result<seq<string>>
  {
    var first := Block(lines, code);
    if first != [] then Ok(first)
    else
      match IntLiteral(code)
      case None => Err(ValueError(code))
      case Some(c) => Ok(Block(lines, c))
  }

  method LookupError(error: string, home: Option<string>, files: map<string, string>)
    returns (r: Result<seq<string>>)
    ensures r == LookupSpec(error, home, files)
  {
    if home.None? {
      return Err(HomeUnset);
    }
    var loaded := LoadFacilities(files, CatalogPath(home.value));
    if loaded.Err? {
      return Err(loaded.error);
    }
    var cat := loaded.value;
    var parts := Split(Lower(error), "-");
    if |parts| != 2 {
      return Err(MalformedCode(error));
    }
    var fac, code := parts[0], parts[1];
    if fac !in cat {
      return Err(UnknownFacility(fac));
    }
    var mpath := MessagesPath(home.value, cat[fac].component, fac);
    if mpath !in files {
      return Err(MessagesUnreadable(mpath));
    }
    var lines := ReadLines(files[mpath]);
    var msgs := ExtractBlock(lines, code);
    if msgs == [] {
      var retry := IntLiteral(code);
      if retry.None? {
        return Err(ValueError(code));
      }
      msgs := ExtractBlock(lines, retry.value);
    }
    return Ok(msgs);
  }

  // The outcome of the lookup.

  /** No line is a header for the code. */
  predicate NoHeader(lines: seq<string>, code: string)
  {
    forall j :: 0 <= j < |lines| ==> !HeaderMatch(lines[j], code)
  }

  /** The code is malformed exactly when it holds other than one hyphen. */
  lemma MalformedExactly(error: string, home: string, files: map<string, string>)
    requires CatalogPath(home) in files
    ensures LookupSpec(error, Some(home), files) == Err(MalformedCode(error)) <==> CountChar(error, '-') != 1
  {
    SplitCharCount(Lower(error), '-');
    LowerKeeps(error, '-');
  }

  /** A code that heads a line is found on the first pass: the message is the first such line
      and the `//` lines below it. */
  lemma SearchFirstPass(lines: seq<string>, code: string, h: nat)
    requires h < |lines| && HeaderMatch(lines[h], code)
    requires forall j :: 0 <= j < h ==> !HeaderMatch(lines[j], code)
    ensures SearchMessages(lines, code) == Ok([Strip(lines[h])] + Continuation(lines[h + 1..]))
  {
    BlockFirstHeader(lines, code, h);
  }

  /** A code of digits that heads no line is found on the retry at the first line headed by
      the code without its leading zeros. */
  lemma SearchSecondPass(lines: seq<string>, code: string, h: nat)
    requires code != [] && AllDigits(code) && NoHeader(lines, code)
    requires IntLiteral(code).Some?
    requires h < |lines| && HeaderMatch(lines[h], IntLiteral(code).value)
    requires forall j :: 0 <= j < h ==> !HeaderMatch(lines[j], IntLiteral(code).value)
    ensures SearchMessages(lines, code) == Ok([Strip(lines[h])] + Continuation(lines[h + 1..]))
  {
    BlockEmpty(lines, code);
    BlockFirstHeader(lines, IntLiteral(code).value, h);
  }

  /** The lookup gives an empty message exactly when neither the code nor `str(int(code))`
      heads a line, and it fails exactly when the code heads no line and `int` rejects it. */
  lemma SearchNothing(lines: seq<string>, code: string)
    ensures SearchMessages(lines, code) == Ok([]) <==>
      NoHeader(lines, code) && IntLiteral(code).Some? && NoHeader(lines, IntLiteral(code).value)
    ensures SearchMessages(lines, code).Err? <==> NoHeader(lines, code) && IntLiteral(code).None?
  {
    BlockEmpty(lines, code);
    if IntLiteral(code).Some? {
      BlockEmpty(lines, IntLiteral(code).value);
    }
  }

  // The header pattern.

  /** `HeaderMatch` is the regex: the line starts with some run of zeros followed by the code
      and a comma. */
  lemma HeaderMatchIff(line: string, code: string)
    ensures HeaderMatch(line, code) <==>
      exists k :: 0 <= k <= |line| && AllZeros(line[..k]) && StartsWith(line[k..], code + ",")
  {
    if HeaderMatch(line, code) {
      var k := HeaderMatchFind(line, code);
    }
    forall k | 0 <= k <= |line| && AllZeros(line[..k]) && StartsWith(line[k..], code + ",")
      ensures HeaderMatch(line, code)
    {
      HeaderMatchWitness(line, code, k);
    }
  }

  lemma {:induction false} HeaderMatchWitness(line: string, code: string, k: nat)
    requires k <= |line| && AllZeros(line[..k]) && StartsWith(line[k..], code + ",")
    ensures HeaderMatch(line, code)
    decreases k
  {
    if k == 0 {
      assert line[0..] == line;
    } else {
      assert line[..k][0] == '0';
      assert line[1..][..k - 1] == line[1..k];
      assert forall i :: 0 <= i < k - 1 ==> line[1..k][i] == line[..k][i + 1];
      assert line[1..][k - 1..] == line[k..];
      HeaderMatchWitness(line[1..], code, k - 1);
    }
  }

  lemma {:induction false} HeaderMatchFind(line: string, code: string) returns (k: nat)
    requires HeaderMatch(line, code)
    ensures k <= |line| && AllZeros(line[..k]) && StartsWith(line[k..], code + ",")
    decreases |line|
  {
    if StartsWith(line, code + ",") {
      k := 0;
      assert line[0..] == line;
    } else {
      var j := HeaderMatchFind(line[1..], code);
      k := j + 1;
      assert line[..k] == [line[0]] + line[1..][..j];
      assert line[k..] == line[1..][j..];
    }
  }

  /** Because of the leading `[0]*`, a header written with extra leading zeros still matches:
      the code `0001` finds the header `00001, ...`. */
  lemma HeaderPadded(z: string, code: string, rest: string)
    requires AllZeros(z)
    ensures HeaderMatch(z + code + "," + rest, code)
  {
    var line := z + code + "," + rest;
    assert line[..|z|] == z;
    assert line[|z|..] == code + "," + rest;
    assert (code + "," + rest)[..|code + ","|] == code + ",";
    HeaderMatchWitness(line, code, |z|);
  }

  /** A header that matches a code with leading zeros also matches the code without them. */
  lemma HeaderUnpadded(line: string, z: string, c: string)
    requires AllZeros(z) && HeaderMatch(line, z + c)
    ensures HeaderMatch(line, c)
  {
    var k := HeaderMatchFind(line, z + c);
    var k2 := k + |z|;
    assert line[k..][..|z + c + ","|] == z + c + ",";
    assert line[k..k2] == z by {
      assert line[k..k2] == line[k..][..|z + c + ","|][..|z|];
    }
    assert line[..k2] == line[..k] + line[k..k2];
    assert line[k2..] == line[k..][|z|..];
    assert (z + c + ",")[|z|..] == c + ",";
    HeaderMatchWitness(line, c, k2);
  }

  lemma PaddedHeaderExample(rest: string)
    ensures HeaderMatch("00001," + rest, "0001")
  {
    HeaderPadded("0", "0001", rest);
    assert "0" + "0001" + "," + rest == "00001," + rest;
  }

  // The message block.

  /** The continuation is the stripped run of `//` lines at the front, and it stops at the first
      line that does not start with `//`. */
  lemma {:induction false} ContinuationFacts(ls: seq<string>)
    ensures var c := Continuation(ls);
      |c| <= |ls| && (|c| == |ls| || !StartsWith(ls[|c|], "//"))
      && forall j :: 0 <= j < |c| ==> StartsWith(ls[j], "//") && c[j] == Strip(ls[j])
    decreases |ls|
  {
    if ls != [] && StartsWith(ls[0], "//") {
      ContinuationFacts(ls[1..]);
    }
  }

  /** A pass finds nothing exactly when no line is a header. */
  lemma {:induction false} BlockEmpty(lines: seq<string>, code: string)
    ensures Block(lines, code) == [] <==> forall j :: 0 <= j < |lines| ==> !HeaderMatch(lines[j], code)
    decreases |lines|
  {
    if lines != [] {
      BlockEmpty(lines[1..], code);
      assert forall j :: 1 <= j < |lines| ==> lines[j] == lines[1..][j - 1];
    }
  }

  /** The block starts at the first header line and continues with the `//` lines after it. */
  lemma {:induction false} BlockFirstHeader(lines: seq<string>, code: string, h: nat)
    requires h < |lines| && HeaderMatch(lines[h], code)
    requires forall j :: 0 <= j < h ==> !HeaderMatch(lines[j], code)
    ensures Block(lines, code) == [Strip(lines[h])] + Continuation(lines[h + 1..])
    decreases h
  {
    if h > 0 {
      assert forall j :: 0 <= j < h - 1 ==> lines[1..][j] == lines[j + 1];
      BlockFirstHeader(lines[1..], code, h - 1);
      assert lines[1..][h - 1 + 1..] == lines[h + 1..];
    }
  }

  /** A header on the last line gives a block of that one line. */
  lemma HeaderAtEnd(pre: seq<string>, header: string, code: string)
    requires HeaderMatch(header, code)
    requires forall j :: 0 <= j < |pre| ==> !HeaderMatch(pre[j], code)
    ensures Block(pre + [header], code) == [Strip(header)]
  {
    var lines := pre + [header];
    assert forall j :: 0 <= j < |pre| ==> lines[j] == pre[j];
    BlockFirstHeader(lines, code, |pre|);
    assert lines[|pre| + 1..] == [];
  }

  // The retry code.

  /** The value of a string of ASCII digits. */
  function DecimalValue(d: string): nat
    decreases |d|
  {
    if d == [] then 0 else DecimalValue(d[..|d| - 1]) * 10 + Digit(d[|d| - 1])
  }

  function Digit(c: char): nat
  {
    if '0' <= c <= '9' then (c - '0') as nat else 0
  }

  /** Leading zeros do not change the value. */
  lemma {:induction false} ZerosValue(z: string, d: string)
    requires AllZeros(z)
    ensures DecimalValue(z + d) == DecimalValue(d)
    decreases |d|
  {
    if d == [] {
      assert z + d == z;
      ZerosOnlyValue(z);
    } else {
      var n := |d| - 1;
      assert (z + d)[..|z + d| - 1] == z + d[..n];
      ZerosValue(z, d[..n]);
    }
  }

  lemma {:induction false} ZerosOnlyValue(z: string)
    requires AllZeros(z)
    ensures DecimalValue(z) == 0
    decreases |z|
  {
    if z != [] {
      ZerosOnlyValue(z[..|z| - 1]);
    }
  }

  /** For a code of ASCII digits, `int` accepts it as it stands. */
  lemma IntLiteralDigits(code: string)
    requires code != [] && AllDigits(code)
    ensures IntLiteral(code) == Some(if DropZeros(code) == [] then "0" else DropZeros(code))
  {
    StripDigits(code);
    assert IsDigit(code[0]);
    assert SignedLiteral(code) == DigitsLiteral(code, false);
  }

  /** For a code of ASCII digits, `str(int(code))` is the code with its leading zeros removed
      (`0` when nothing else is left): it has the same value, and every header the code matches
      is matched by it too, so the retry can only find more. */
  lemma RetryCode(code: string)
    requires code != [] && AllDigits(code)
    ensures IntLiteral(code).Some?
    ensures var c := IntLiteral(code).value;
      AllDigits(c) && c != [] && (c == "0" || c[0] != '0')
      && DecimalValue(c) == DecimalValue(code)
      && exists z :: AllZeros(z) && code == z + c
  {
    IntLiteralDigits(code);
    var m := DropZeros(code);
    var z := code[..|code| - |m|];
    if m == [] {
      AllZerosCode(code, z);
    } else {
      SuffixDigits(z, m);
      ZerosValue(z, m);
    }
  }

  lemma SuffixDigits(z: string, m: string)
    requires AllDigits(z + m)
    ensures AllDigits(m)
  {
    assert forall i :: 0 <= i < |m| ==> m[i] == (z + m)[|z| + i];
  }

  lemma AllZerosCode(code: string, z: string)
    requires code != [] && code == z + [] && AllZeros(z)
    ensures DecimalValue("0") == DecimalValue(code)
    ensures exists z' :: AllZeros(z') && code == z' + "0"
  {
    var z' := z[..|z| - 1];
    assert code == z' + "0";
    ZerosValue(z', "0");
    assert DecimalValue("0") == DecimalValue([]) * 10 + Digit('0') == 0;
  }

  /** Every header found for a digit code is also found on the retry. */
  lemma RetryWidens(code: string, line: string)
    requires code != [] && AllDigits(code) && HeaderMatch(line, code)
    ensures IntLiteral(code).Some? && HeaderMatch(line, IntLiteral(code).value)
  {
    RetryCode(code);
    var z :| AllZeros(z) && code == z + IntLiteral(code).value;
    HeaderUnpadded(line, z, IntLiteral(code).value);
  }

  /** A header written without padding, such as `1, ...`, is missed by a padded code such as
      `0001` and found by the retry, which asks for `1`. */
  lemma UnpaddedHeaderOnRetry(z: string, c: string, rest: string)
    requires z != [] && AllZeros(z) && c != [] && AllDigits(c) && c[0] != '0'
    ensures !HeaderMatch(c + "," + rest, z + c)
    ensures IntLiteral(z + c) == Some(c)
    ensures HeaderMatch(c + "," + rest, c)
  {
    var line := c + "," + rest;
    assert line[0] == c[0];
    assert |line| >= |z + c + ","| ==> line[..|z + c + ","|][0] == c[0] && (z + c + ",")[0] == '0';
    HeaderPadded("", c, rest);
    assert "" + c + "," + rest == line;
    assert forall i :: 0 <= i < |z + c| ==> (z + c)[i] == if i < |z| then z[i] else c[i - |z|];
    IntLiteralDigits(z + c);
    DropZerosPrefix(z, c);
  }

  /** Leading zeros in front of a text that does not start with `0` are exactly what
      `DropZeros` removes. */
  lemma {:induction false} DropZerosPrefix(z: string, m: string)
    requires AllZeros(z) && (m == [] || m[0] != '0')
    ensures DropZeros(z + m) == m
    decreases |z|
  {
    if z == [] {
      assert z + m == m;
    } else {
      assert (z + m)[1..] == z[1..] + m;
      DropZerosPrefix(z[1..], m);
    }
  }
}

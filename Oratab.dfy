/** `LoadOratab` and `GetAsmHome` in Oracle.py: the oratab file maps each instance (SID) to its
    Oracle home, one `sid:home[:flag]` record per line, and the ASM home is the home of the
    last `+ASM` instance in sorted order. */
module Oratab {
  import opened Failures
  import opened Text
  import opened Sorting

  /** `line.split('#', 1)[0].strip()`. */
  function Uncommented(line: string): string
  {
    Strip(Split(line, "#")[0])
  }

  /** What one line contributes: the first two colon-separated fields of the uncommented line,
      when it holds at least one colon. The fields themselves are not stripped. */
  function OratabEntry(line: string): Option<(string, string)>
  {
    var t := Uncommented(line);
    if CountChar(t, ':') >= 1 then
      SplitCharCount(t, ':');
      var f := Split(t, ":");
      Some((f[0], f[1]))
    else None
  }

  type OraEntry = Option<(string, string)>

  function OraEntries(lines: seq<string>): (es: seq<OraEntry>)
    ensures |es| == |lines|
    ensures forall i :: 0 <= i < |lines| ==> es[i] == OratabEntry(lines[i])
  {
    seq(|lines|, i requires 0 <= i < |lines| => OratabEntry(lines[i]))
  }

  /** The dictionary built from the entries, first to last; a later SID replaces the home. */
  function OraFold(es: seq<OraEntry>): map<string, string>
    decreases |es|
  {
    if es == [] then map[] else OraApply(OraFold(es[..|es| - 1]), es[|es| - 1])
  }

  /** The dictionary after one more entry. */
  function OraApply(d: map<string, string>, e: OraEntry): map<string, string>
  {
    match e
    case None => d
    case Some(kv) => d[kv.0 := kv.1]
  }

  /** The dictionary that the lines of an oratab file describe. */
  function OratabOf(lines: seq<string>): map<string, string>
  {
    OraFold(OraEntries(lines))
  }

  /** The loop over `otab.readlines()`. */
  method LoadOratab(text: string) returns (oratab: map<string, string>)
    ensures oratab == OratabOf(ReadLines(text))
  {
    var lines := ReadLines(text);
    oratab := map[];
    var i := 0;
    while i < |lines|
      invariant 0 <= i <= |lines|
      invariant oratab == OratabOf(lines[..i])
    {
      var entry := OratabEntry(lines[i]);
      if entry.Some? {
        var (sid, home) := entry.value;
        oratab := oratab[sid := home];
      }
      OraStep(lines, i, oratab);
      i := i + 1;
    }
    assert lines[..i] == lines;
  }

  lemma OraStep(lines: seq<string>, i: nat, d: map<string, string>)
    requires i < |lines|
    ensures d == OraApply(OratabOf(lines[..i]), OratabEntry(lines[i])) ==> d == OratabOf(lines[..i + 1])
  {
    OraEntriesPrefix(lines, i);
    var es := OraEntries(lines[..i + 1]);
    assert es[..|es| - 1] == OraEntries(lines[..i]);
  }

  lemma OraEntriesPrefix(lines: seq<string>, i: nat)
    requires i < |lines|
    ensures OraEntries(lines[..i + 1]) == OraEntries(lines[..i]) + [OratabEntry(lines[i])]
  {
  }

  /** The last `+ASM` SID of a sequence of SIDs, and its home, or `""`. */
  function LastAsm(sids: seq<string>, oratab: map<string, string>): string
    requires forall k :: k in sids ==> k in oratab
    decreases |sids|
  {
    if sids == [] then ""
    else
      var n := |sids| - 1;
      if StartsWith(sids[n], "+ASM") then oratab[sids[n]] else LastAsm(sids[..n], oratab)
  }

  /** `GetAsmHome(Oratab)`: the SIDs in sorted order, keeping the home of each one that starts
      with `+ASM`. */
  method GetAsmHome(text: string) returns (asmHome: string)
    ensures asmHome == LastAsm(SortedSeq(OratabOf(ReadLines(text)).Keys), OratabOf(ReadLines(text)))
  {
    asmHome := "";
    var oratab := LoadOratab(text);
    var sids := SortStrings(oratab.Keys);
    var i := 0;
    while i < |sids|
      invariant 0 <= i <= |sids|
      invariant asmHome == LastAsm(sids[..i], oratab)
    {
      LastAsmStep(sids, oratab, i);
      if StartsWith(sids[i], "+ASM") {
        asmHome := oratab[sids[i]];
      }
      i := i + 1;
    }
    assert sids[..i] == sids;
  }

  /** One more SID: its home when it starts with `+ASM`, the earlier answer otherwise. */
  lemma LastAsmStep(sids: seq<string>, oratab: map<string, string>, i: nat)
    requires forall k :: k in sids ==> k in oratab
    requires i < |sids|
    ensures forall k :: k in sids[..i] ==> k in oratab
    ensures LastAsm(sids[..i + 1], oratab)
      == if StartsWith(sids[i], "+ASM") then oratab[sids[i]] else LastAsm(sids[..i], oratab)
  {
    assert sids[..i + 1][..i] == sids[..i];
  }

  // Properties of the dictionary.

  lemma {:induction false} OraFoldKeys(es: seq<OraEntry>, sid: string)
    ensures sid in OraFold(es) <==> exists i :: 0 <= i < |es| && es[i].Some? && es[i].value.0 == sid
    decreases |es|
  {
    if es != [] {
      var n := |es| - 1;
      var init := es[..n];
      OraFoldKeys(init, sid);
      assert forall i :: 0 <= i < n ==> init[i] == es[i];
    }
  }

  lemma {:induction false} OraFoldLastWrite(es: seq<OraEntry>, sid: string, i: nat)
    requires i < |es| && es[i].Some? && es[i].value.0 == sid
    requires forall j :: i < j < |es| ==> !(es[j].Some? && es[j].value.0 == sid)
    ensures sid in OraFold(es) && OraFold(es)[sid] == es[i].value.1
    decreases |es|
  {
    var init := es[..|es| - 1];
    if i < |es| - 1 {
      assert forall j :: 0 <= j < |init| ==> init[j] == es[j];
      OraFoldLastWrite(init, sid, i);
    }
  }

  /** A SID is in the dictionary exactly when some line names it. */
  lemma OratabKeys(lines: seq<string>, sid: string)
    ensures sid in OratabOf(lines) <==>
      exists i :: 0 <= i < |lines| && OratabEntry(lines[i]).Some? && OratabEntry(lines[i]).value.0 == sid
  {
    OraFoldKeys(OraEntries(lines), sid);
  }

  /** The home stored for a SID is that of the last line naming it. */
  lemma OratabLastWrite(lines: seq<string>, sid: string, i: nat)
    requires i < |lines| && OratabEntry(lines[i]).Some? && OratabEntry(lines[i]).value.0 == sid
    requires forall j :: i < j < |lines| ==> !(OratabEntry(lines[j]).Some? && OratabEntry(lines[j]).value.0 == sid)
    ensures sid in OratabOf(lines) && OratabOf(lines)[sid] == OratabEntry(lines[i]).value.1
  {
    var es := OraEntries(lines);
    forall j | i < j < |es| ensures !(es[j].Some? && es[j].value.0 == sid) {
      assert es[j] == OratabEntry(lines[j]);
    }
    OraFoldLastWrite(es, sid, i);
  }

  /** A field of an oratab record that survives the round trip. */
  predicate Plain(x: string)
  {
    ':' !in x && '#' !in x && (x == [] || (!IsSpace(x[0]) && !IsSpace(x[|x| - 1])))
  }

  /** A record line `sid:home:flag`, with a comment and blanks around it, gives back its SID
      and home. */
  lemma OratabRecordLine(sid: string, home: string, flag: string, pad: string, comment: string)
    requires Plain(sid) && Plain(home) && Plain(flag) && AllSpace(pad)
    ensures OratabEntry(pad + (sid + ":" + home + ":" + flag) + pad + "#" + comment) == Some((sid, home))
  {
    var x := sid + ":" + home + ":" + flag;
    SplitThree(sid, home, flag, ':');
    RecordEnds(sid, home, flag);
    NoHash(sid, home, flag);
    PaddedRecord(pad, x, comment);
  }

  lemma PaddedRecord(pad: string, x: string, comment: string)
    requires AllSpace(pad) && '#' !in x && CountChar(x, ':') >= 1
    requires x == [] || (!IsSpace(x[0]) && !IsSpace(x[|x| - 1]))
    ensures |Split(x, ":")| >= 2
    ensures OratabEntry(pad + x + pad + "#" + comment) == Some((Split(x, ":")[0], Split(x, ":")[1]))
  {
    var line := pad + x + pad + "#" + comment;
    CommentCut(pad, x, comment);
    StripPadded(pad, x, pad);
    EntryOf(line, x);
  }

  lemma EntryOf(line: string, x: string)
    requires Uncommented(line) == x && CountChar(x, ':') >= 1
    ensures |Split(x, ":")| >= 2
    ensures OratabEntry(line) == Some((Split(x, ":")[0], Split(x, ":")[1]))
  {
    SplitCharCount(x, ':');
  }

  lemma CommentCut(pad: string, x: string, comment: string)
    requires AllSpace(pad) && '#' !in x
    ensures Split(pad + x + pad + "#" + comment, "#")[0] == pad + x + pad
  {
    SpacesHoldNoMarks(pad);
    assert '#' !in pad + x + pad;
    SplitCharCons(pad + x + pad, '#', comment);
  }

  lemma NoHash(sid: string, home: string, flag: string)
    requires Plain(sid) && Plain(home) && Plain(flag)
    ensures '#' !in sid + ":" + home + ":" + flag
  {
  }

  lemma RecordEnds(sid: string, home: string, flag: string)
    requires Plain(sid) && Plain(flag)
    ensures var x := sid + ":" + home + ":" + flag; !IsSpace(x[0]) && !IsSpace(x[|x| - 1])
  {
  }

  lemma SpacesHoldNoMarks(pad: string)
    requires AllSpace(pad)
    ensures ':' !in pad && '#' !in pad
  {
    assert forall i :: 0 <= i < |pad| ==> pad[i] != ':' && pad[i] != '#';
  }

  /** A line with no colon outside its comment adds nothing. */
  lemma NoColonSkipped(line: string)
    requires ':' !in Uncommented(line)
    ensures OratabEntry(line).None?
  {
  }

  // Properties of the ASM selection.

  /** The result is the home of the last `+ASM` SID in the sequence. */
  lemma {:induction false} LastAsmAt(sids: seq<string>, oratab: map<string, string>, i: nat)
    requires forall k :: k in sids ==> k in oratab
    requires i < |sids| && StartsWith(sids[i], "+ASM")
    requires forall j :: i < j < |sids| ==> !StartsWith(sids[j], "+ASM")
    ensures LastAsm(sids, oratab) == oratab[sids[i]]
    decreases |sids|
  {
    var n := |sids| - 1;
    if i < n {
      var init := sids[..n];
      assert forall j :: 0 <= j < n ==> init[j] == sids[j];
      LastAsmAt(init, oratab, i);
    }
  }

  /** Without a `+ASM` SID the result is `""`. */
  lemma {:induction false} LastAsmNone(sids: seq<string>, oratab: map<string, string>)
    requires forall k :: k in sids ==> k in oratab
    requires forall j :: 0 <= j < |sids| ==> !StartsWith(sids[j], "+ASM")
    ensures LastAsm(sids, oratab) == ""
    decreases |sids|
  {
    if sids != [] {
      var n := |sids| - 1;
      var init := sids[..n];
      assert forall j :: 0 <= j < n ==> init[j] == sids[j];
      LastAsmNone(init, oratab);
    }
  }

  /** `GetAsmHome` returns `""` when no SID starts with `+ASM`, and otherwise the home of the
      greatest such SID. */
  lemma AsmHome(oratab: map<string, string>)
    ensures (forall k :: k in oratab ==> !StartsWith(k, "+ASM")) ==> LastAsm(SortedSeq(oratab.Keys), oratab) == ""
    ensures forall k :: k in oratab && StartsWith(k, "+ASM")
              && (forall k' :: k' in oratab && StartsWith(k', "+ASM") && k' != k ==> Below(k', k))
              ==> LastAsm(SortedSeq(oratab.Keys), oratab) == oratab[k]
  {
    var sids := SortedSeq(oratab.Keys);
    if forall k :: k in oratab ==> !StartsWith(k, "+ASM") {
      assert forall j :: 0 <= j < |sids| ==> sids[j] in oratab;
      LastAsmNone(sids, oratab);
    }
    forall k | k in oratab && StartsWith(k, "+ASM")
        && (forall k' :: k' in oratab && StartsWith(k', "+ASM") && k' != k ==> Below(k', k))
      ensures LastAsm(sids, oratab) == oratab[k]
    {
      GreatestLast(sids, oratab, k);
    }
  }

  lemma GreatestLast(sids: seq<string>, oratab: map<string, string>, k: string)
    requires sids == SortedSeq(oratab.Keys)
    requires k in oratab && StartsWith(k, "+ASM")
    requires forall k' :: k' in oratab && StartsWith(k', "+ASM") && k' != k ==> Below(k', k)
    ensures LastAsm(sids, oratab) == oratab[k]
  {
    var i :| 0 <= i < |sids| && sids[i] == k;
    BelowOrder();
    forall j | i < j < |sids| ensures !StartsWith(sids[j], "+ASM") {
      assert Below(sids[i], sids[j]);
      assert sids[j] in oratab;
    }
    LastAsmAt(sids, oratab, i);
  }
}

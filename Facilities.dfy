/** The facility catalog: `LoadFacilities` in Oracle.py reads `<home>/lib/facility.lis`, one
    `facility:component:oldname:description` record per line, into a dictionary keyed by
    facility code. */
module Facilities {
  import opened Failures
  import opened Text

  datatype FacRec = FacRec(component: string, oldName: string, description: string)

  type Catalog = map<string, FacRec>

  /** Where the catalog lives under an Oracle home. */
  function CatalogPath(home: string): string
  {
    home + "/lib/facility.lis"
  }

  /** The part of a line before its first `#`. */
  function CutComment(line: string): string
  {
    var h := Find(line, "#");
    if h >= 0 then line[..h] else line
  }

  /** What one line of the catalog file contributes: a key and its record, or nothing.
      A line is skipped when it is blank, when it does not hold exactly three colons once the
      comment is cut off, or when its first field is empty before stripping; the record is
      stored under the stripped first field and holds the three other fields stripped. */
  function ParseLine(line: string): Option<(string, FacRec)>
  {
    if AllSpace(line) then None
    else
      var t := CutComment(line);
      if CountChar(t, ':') != 3 then None
      else
        SplitCharCount(t, ':');
        var f := Split(t, ":");
        if f[0] == "" then None
        else Some((Strip(f[0]), FacRec(Strip(f[1]), Strip(f[2]), Strip(f[3]))))
  }

  predicate Accepts(line: string, key: string)
  {
    ParseLine(line).Some? && ParseLine(line).value.0 == key
  }

  /** What a line contributes, once parsed. */
  type Entry = Option<(string, FacRec)>

  /** The catalog after one more entry: a later entry for the same key replaces the record. */
  function Apply(c: Catalog, e: Entry): Catalog
  {
    match e
    case None => c
    case Some(kv) => c[kv.0 := kv.1]
  }

  /** The catalog built from a sequence of entries, first to last. */
  function Fold(es: seq<Entry>): Catalog
    decreases |es|
  {
    if es == [] then map[] else Apply(Fold(es[..|es| - 1]), es[|es| - 1])
  }

  function Entries(lines: seq<string>): (es: seq<Entry>)
    ensures |es| == |lines|
    ensures forall i :: 0 <= i < |lines| ==> es[i] == ParseLine(lines[i])
  {
    seq(|lines|, i requires 0 <= i < |lines| => ParseLine(lines[i]))
  }

  /** The catalog that the lines of a file describe. */
  function Loaded(lines: seq<string>): Catalog
  {
    Fold(Entries(lines))
  }

  /** The number of entries that carry a record. */
  function NumSome(es: seq<Entry>): nat
    decreases |es|
  {
    if es == [] then 0 else NumSome(es[..|es| - 1]) + (if es[|es| - 1].Some? then 1 else 0)
  }

  /** The number of lines that contribute a record. */
  function NumAccepted(lines: seq<string>): nat
  {
    NumSome(Entries(lines))
  }

  lemma EntriesConcat(a: seq<string>, b: seq<string>)
    ensures Entries(a + b) == Entries(a) + Entries(b)
  {
    var l, r := Entries(a + b), Entries(a) + Entries(b);
    forall k | 0 <= k < |l| ensures l[k] == r[k] {
      if k < |a| {
        assert (a + b)[k] == a[k];
      } else {
        assert (a + b)[k] == b[k - |a|];
      }
    }
  }

  lemma EntriesPrefix(lines: seq<string>, i: nat)
    requires i < |lines|
    ensures Entries(lines[..i + 1]) == Entries(lines[..i]) + [ParseLine(lines[i])]
  {
    assert lines[..i + 1] == lines[..i] + [lines[i]];
    EntriesConcat(lines[..i], [lines[i]]);
    assert Entries([lines[i]]) == [ParseLine(lines[i])];
  }

  /** `LoadFacilities(FacilitiesFile)`: an unreadable file ends the program (exit(1));
      otherwise each line of the text split at `\n` is considered in turn. */
  method LoadFacilities(files: map<string, string>, path: string) returns (r: Result<Catalog>)
    ensures path !in files ==> r == Err(CatalogUnreadable(path))
    ensures path in files ==> r == Ok(Loaded(Split(files[path], "\n")))
  {
    if path !in files {
      return Err(CatalogUnreadable(path));
    }
    var contents := Split(files[path], "\n");
    var facDD: Catalog := map[];
    var i := 0;
    while i < |contents|
      invariant 0 <= i <= |contents|
      invariant facDD == Loaded(contents[..i])
    {
      var entry := ParseLine(contents[i]);
      if entry.Some? {
        var (key, rec) := entry.value;
        facDD := facDD[key := rec];
      }
      LoadStep(contents, i, facDD);
      i := i + 1;
    }
    assert contents[..i] == contents;
    return Ok(facDD);
  }

  lemma LoadStep(lines: seq<string>, i: nat, c: Catalog)
    requires i < |lines|
    ensures c == Apply(Loaded(lines[..i]), ParseLine(lines[i])) ==> c == Loaded(lines[..i + 1])
  {
    EntriesPrefix(lines, i);
    var es := Entries(lines[..i + 1]);
    assert es[..|es| - 1] == Entries(lines[..i]);
  }

  lemma {:induction false} FoldKeys(es: seq<Entry>, key: string)
    ensures key in Fold(es) <==> exists i :: 0 <= i < |es| && es[i].Some? && es[i].value.0 == key
    decreases |es|
  {
    if es != [] {
      var n := |es| - 1;
      var init := es[..n];
      FoldKeys(init, key);
      if key in Fold(es) && key in Fold(init) {
        var i :| 0 <= i < |init| && init[i].Some? && init[i].value.0 == key;
        assert es[i] == init[i];
      }
      if exists i :: 0 <= i < |es| && es[i].Some? && es[i].value.0 == key {
        var i :| 0 <= i < |es| && es[i].Some? && es[i].value.0 == key;
        if i < n {
          assert init[i] == es[i];
        }
      }
    }
  }

  lemma {:induction false} FoldLastWrite(es: seq<Entry>, key: string, i: nat)
    requires i < |es| && es[i].Some? && es[i].value.0 == key
    requires forall j :: i < j < |es| ==> !(es[j].Some? && es[j].value.0 == key)
    ensures key in Fold(es) && Fold(es)[key] == es[i].value.1
    decreases |es|
  {
    var init := es[..|es| - 1];
    if i < |es| - 1 {
      assert forall j :: 0 <= j < |init| ==> init[j] == es[j];
      FoldLastWrite(init, key, i);
    }
  }

  lemma {:induction false} FoldIgnoresNone(a: seq<Entry>, b: seq<Entry>)
    ensures Fold(a + [None] + b) == Fold(a + b)
    decreases |b|
  {
    if b == [] {
      assert (a + [None] + b)[..|a|] == a;
      assert a + b == a;
    } else {
      var b' := b[..|b| - 1];
      assert (a + [None] + b)[..|a| + |b|] == a + [None] + b';
      assert (a + b)[..|a| + |b| - 1] == a + b';
      FoldIgnoresNone(a, b');
    }
  }

  lemma {:induction false} FoldSize(es: seq<Entry>)
    requires forall i, j :: 0 <= i < j < |es| && es[i].Some? && es[j].Some? ==> es[i].value.0 != es[j].value.0
    ensures |Fold(es)| == NumSome(es)
    decreases |es|
  {
    if es != [] {
      var init := es[..|es| - 1];
      assert forall j :: 0 <= j < |init| ==> init[j] == es[j];
      FoldSize(init);
      var last := es[|es| - 1];
      if last.Some? {
        FoldKeys(init, last.value.0);
        assert last.value.0 !in Fold(init);
      }
    }
  }

  /** A key is in the catalog exactly when some line contributes it. */
  lemma LoadedKeys(lines: seq<string>, key: string)
    ensures key in Loaded(lines) <==> exists i :: 0 <= i < |lines| && Accepts(lines[i], key)
  {
    FoldKeys(Entries(lines), key);
  }

  /** The record stored under a key is that of the last line contributing the key. */
  lemma LoadedLastWrite(lines: seq<string>, key: string, i: nat)
    requires i < |lines| && Accepts(lines[i], key)
    requires forall j :: i < j < |lines| ==> !Accepts(lines[j], key)
    ensures key in Loaded(lines) && Loaded(lines)[key] == ParseLine(lines[i]).value.1
  {
    FoldLastWrite(Entries(lines), key, i);
  }

  /** A skipped line, wherever it stands, changes nothing. */
  lemma LoadedIgnoresSkipped(a: seq<string>, line: string, b: seq<string>)
    requires ParseLine(line).None?
    ensures Loaded(a + [line] + b) == Loaded(a + b)
  {
    EntriesConcat(a, [line]);
    EntriesConcat(a + [line], b);
    EntriesConcat(a, b);
    assert Entries([line]) == [None];
    FoldIgnoresNone(Entries(a), Entries(b));
  }

  /** When no two contributing lines share a key, the catalog has one entry per contributing
      line, however the skipped lines are interleaved. */
  lemma LoadedSize(lines: seq<string>)
    requires forall i, j, key :: 0 <= i < j < |lines| && Accepts(lines[i], key) ==> !Accepts(lines[j], key)
    ensures |Loaded(lines)| == NumAccepted(lines)
  {
    var es := Entries(lines);
    forall i, j | 0 <= i < j < |es| && es[i].Some? && es[j].Some? ensures es[i].value.0 != es[j].value.0 {
      var key := es[i].value.0;
      assert es[i] == ParseLine(lines[i]) && es[j] == ParseLine(lines[j]);
      assert Accepts(lines[i], key);
      assert !Accepts(lines[j], key);
    }
    FoldSize(es);
  }

  /** A field that survives a round trip through a catalog line: no colon, no comment mark,
      no surrounding whitespace. */
  predicate CleanField(x: string)
  {
    ':' !in x && '#' !in x && (x == [] || (!IsSpace(x[0]) && !IsSpace(x[|x| - 1])))
  }

  /** The catalog line that describes `key` and `rec`. */
  function RecordLine(key: string, rec: FacRec): string
  {
    key + ":" + rec.component + ":" + rec.oldName + ":" + rec.description
  }

  lemma StripClean(x: string)
    requires CleanField(x)
    ensures Strip(x) == x
  {
    StripPadded("", x, "");
    assert "" + x + "" == x;
  }

  /** How `ParseLine` reads a line once its pieces are known. */
  lemma ParseLineFrom(line: string, t: string, f: seq<string>)
    requires !AllSpace(line) && CutComment(line) == t && CountChar(t, ':') == 3
    requires Split(t, ":") == f && |f| == 4
    ensures f[0] == "" ==> ParseLine(line) == None
    ensures f[0] != "" ==> ParseLine(line) == Some((Strip(f[0]), FacRec(Strip(f[1]), Strip(f[2]), Strip(f[3]))))
  {
  }

  /** Cutting at `#` removes exactly the comment. */
  lemma CutCommentOf(line: string, comment: string)
    requires '#' !in line
    ensures CutComment(line) == line
    ensures CutComment(line + "#" + comment) == line
  {
    FindCharNone(line, '#');
    FindCharFirst(line, '#', comment);
    assert line + "#" + comment == line + ['#'] + comment;
    assert (line + ['#'] + comment)[..|line|] == line;
  }

  /** A record line holds no comment mark, and its colons separate exactly its four fields. */
  lemma RecordLineFields(key: string, rec: FacRec)
    requires ':' !in key && ':' !in rec.component && ':' !in rec.oldName && ':' !in rec.description
    requires '#' !in key && '#' !in rec.component && '#' !in rec.oldName && '#' !in rec.description
    ensures '#' !in RecordLine(key, rec) && CutComment(RecordLine(key, rec)) == RecordLine(key, rec)
    ensures CountChar(RecordLine(key, rec), ':') == 3
    ensures Split(RecordLine(key, rec), ":") == [key, rec.component, rec.oldName, rec.description]
  {
    var line := RecordLine(key, rec);
    assert line == key + [':'] + rec.component + [':'] + rec.oldName + [':'] + rec.description;
    SplitFour(key, rec.component, rec.oldName, rec.description, ':');
    AbsentFour(key, rec.component, rec.oldName, rec.description, ':', '#');
    CutCommentOf(line, "");
  }

  /** A record line holds a colon, so it is not blank, with or without a comment after it. */
  lemma RecordNotBlank(key: string, rec: FacRec, comment: string)
    ensures !AllSpace(RecordLine(key, rec)) && !AllSpace(RecordLine(key, rec) + "#" + comment)
  {
    var line := RecordLine(key, rec);
    assert line == key + [':'] + rec.component + [':'] + rec.oldName + [':'] + rec.description;
    SeparatorInFour(key, rec.component, rec.oldName, rec.description, ':');
    HoldsNonSpace(line, ':');
    assert ':' in line + "#" + comment;
    HoldsNonSpace(line + "#" + comment, ':');
  }

  /** How a record line is read, from its four fields. */
  lemma RecordParse(key: string, rec: FacRec)
    requires ':' !in key && ':' !in rec.component && ':' !in rec.oldName && ':' !in rec.description
    requires '#' !in key && '#' !in rec.component && '#' !in rec.oldName && '#' !in rec.description
    ensures key == "" ==> ParseLine(RecordLine(key, rec)) == None
    ensures key != "" ==>
      ParseLine(RecordLine(key, rec)) == Some((Strip(key), FacRec(Strip(rec.component), Strip(rec.oldName), Strip(rec.description))))
  {
    var line := RecordLine(key, rec);
    RecordLineFields(key, rec);
    RecordNotBlank(key, rec, "");
    ParseLineFrom(line, line, [key, rec.component, rec.oldName, rec.description]);
  }

  /** Clean fields are read back unchanged. */
  lemma CleanRecord(rec: FacRec)
    requires CleanField(rec.component) && CleanField(rec.oldName) && CleanField(rec.description)
    ensures FacRec(Strip(rec.component), Strip(rec.oldName), Strip(rec.description)) == rec
  {
    StripClean(rec.component);
    StripClean(rec.oldName);
    StripClean(rec.description);
  }

  /** Writing a record as a catalog line, with or without a trailing comment, and parsing
      that line gives back the key and the record. */
  lemma ParseRecordLine(key: string, rec: FacRec, comment: string)
    requires key != [] && CleanField(key)
    requires CleanField(rec.component) && CleanField(rec.oldName) && CleanField(rec.description)
    ensures ParseLine(RecordLine(key, rec)) == Some((key, rec))
    ensures ParseLine(RecordLine(key, rec) + "#" + comment) == Some((key, rec))
  {
    KeyedLine(key, rec);
    StripClean(key);
    CommentedLine(key, rec, comment);
  }

  /** A comment after a record line changes nothing. */
  lemma CommentedLine(key: string, rec: FacRec, comment: string)
    requires key != [] && ':' !in key && '#' !in key
    requires CleanField(rec.component) && CleanField(rec.oldName) && CleanField(rec.description)
    ensures ParseLine(RecordLine(key, rec) + "#" + comment) == ParseLine(RecordLine(key, rec))
  {
    var line := RecordLine(key, rec);
    var commented := line + "#" + comment;
    RecordLineFields(key, rec);
    CutCommentOf(line, comment);
    RecordNotBlank(key, rec, comment);
    ParseLineFrom(commented, line, [key, rec.component, rec.oldName, rec.description]);
    ParseLineFrom(line, line, [key, rec.component, rec.oldName, rec.description]);
  }

  /** The emptiness test looks at the first field before stripping: a first field made only
      of blanks passes it, and the record is filed under the empty key. */
  lemma BlankKeyLine(pad: string, rec: FacRec)
    requires pad != [] && AllSpace(pad)
    requires CleanField(rec.component) && CleanField(rec.oldName) && CleanField(rec.description)
    ensures ParseLine(RecordLine(pad, rec)) == Some(("", rec))
  {
    SpacesHoldNoMarks(pad);
    KeyedLine(pad, rec);
    StripAllSpace(pad);
  }

  /** A line with a non-empty first field and clean other fields is filed under the stripped
      first field. */
  lemma KeyedLine(key: string, rec: FacRec)
    requires key != [] && ':' !in key && '#' !in key
    requires CleanField(rec.component) && CleanField(rec.oldName) && CleanField(rec.description)
    ensures ParseLine(RecordLine(key, rec)) == Some((Strip(key), rec))
  {
    RecordParse(key, rec);
    CleanRecord(rec);
  }

  lemma SpacesHoldNoMarks(pad: string)
    requires AllSpace(pad)
    ensures ':' !in pad && '#' !in pad
  {
    assert forall i :: 0 <= i < |pad| ==> pad[i] != ':' && pad[i] != '#';
  }

  /** A line whose first field is empty is skipped. */
  lemma EmptyKeyLine(rec: FacRec)
    requires CleanField(rec.component) && CleanField(rec.oldName) && CleanField(rec.description)
    ensures ParseLine(RecordLine("", rec)) == None
  {
    RecordParse("", rec);
  }

  /** A line with a fifth field, that is a fourth colon before any comment, is skipped. */
  lemma ExtraFieldLine(key: string, rec: FacRec, extra: string)
    requires CleanField(key) && CleanField(rec.component) && CleanField(rec.oldName)
    requires CleanField(rec.description) && '#' !in extra
    ensures ParseLine(RecordLine(key, rec) + ":" + extra) == None
  {
    var line := RecordLine(key, rec);
    var longer := line + ":" + extra;
    RecordLineFields(key, rec);
    assert '#' !in longer;
    CutCommentOf(longer, "");
    assert multiset(longer) == multiset(line) + multiset{':'} + multiset(extra);
  }
}

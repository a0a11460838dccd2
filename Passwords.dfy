/** `GetPassword` in Oracle.py: the password file holds `name:user:password` records, one per
    line; the first record for the database name and (case-insensitively) the user supplies
    the password, optionally base64-decoded, and `""` means that no record was found. */
module Passwords {
  import opened Failures
  import opened Text

  /** `match(r'^\s*$', line)`. */
  predicate BlankLine(line: string)
  {
    AllSpace(line)
  }

  /** `match(r'^\s#\s*$', line)`: exactly one whitespace character, a `#`, then only
      whitespace. */
  predicate CommentLine(line: string)
  {
    |line| >= 2 && IsSpace(line[0]) && line[1] == '#' && AllSpace(line[2..])
  }

  /** The password one line offers for `name` and `user`: the line is not skipped, holds
      exactly two colons, names the database, names the user up to case, and has a non-empty
      password field. */
  function Offer(line: string, name: string, user: string): Option<string>
  {
    if BlankLine(line) || CommentLine(line) || CountChar(line, ':') != 2 then None
    else
      SplitCharCount(line, ':');
      var f := Split(line, ":");
      if f[0] == name && Upper(f[1]) == Upper(user) && f[2] != "" then Some(f[2]) else None
  }

  /** The password each line offers, line by line. */
  function Offers(lines: seq<string>, name: string, user: string): (r: seq<Option<string>>)
    ensures |r| == |lines| && forall j :: 0 <= j < |lines| ==> r[j] == Offer(lines[j], name, user)
  {
    seq(|lines|, j requires 0 <= j < |lines| => Offer(lines[j], name, user))
  }

  /** The first offer made, scanning from the front. */
  function FirstSome(offers: seq<Option<string>>): Option<string>
    decreases |offers|
  {
    if offers == [] then None
    else if offers[0].Some? then offers[0]
    else FirstSome(offers[1..])
  }

  /** The password of the first line that offers one. */
  function FirstOffer(lines: seq<string>, name: string, user: string): Option<string>
  {
    FirstSome(Offers(lines, name, user))
  }

  /** The password as returned: decoded when asked, but left as stored when decoding fails
      (the source prints a warning and returns the stored text). */
  function Decoded(pw: string, decrypt: bool, decode: string -> Option<string>): string
  {
    if !decrypt then pw
    else match decode(pw)
      case None => pw
      case Some(d) => d
  }

  /** What `GetPassword` returns for the contents of a readable password file. */
  function PasswordOf(contents: string, name: string, user: string, decrypt: bool,
                      decode: string -> Option<string>): string
  {
    match FirstOffer(Split(contents, "\n"), name, user)
    case None => ""
    case Some(pw) => Decoded(pw, decrypt, decode)
  }

  /** The scan of the password file. `files` maps the readable paths to their contents and
      `decode` stands for the base64 decoding, `None` when it raises. */
  method GetPassword(files: map<string, string>, path: string, name: string, user: string,
                     decrypt: bool, decode: string -> Option<string>) returns (r: Result<string>)
    ensures path !in files ==> r == Err(PasswordsUnreadable(path))
    ensures path in files ==> r == Ok(PasswordOf(files[path], name, user, decrypt, decode))
  {
    if path !in files {
      return Err(PasswordsUnreadable(path));
    }
    var lines := Split(files[path], "\n");
    var i := 0;
    while i < |lines|
      invariant i <= |lines|
      invariant forall j :: 0 <= j < i ==> Offer(lines[j], name, user).None?
    {
      var offer := Offer(lines[i], name, user);
      if offer.Some? {
        var pw := offer.value;
        if decrypt {
          var d := decode(pw);
          if d.Some? {
            pw := d.value;
          }
        }
        FirstOfferAt(lines, name, user, i);
        return Ok(pw);
      }
      i := i + 1;
    }
    FirstOfferNone(lines, name, user);
    return Ok("");
  }

  // Properties of the scan.

  /** The first offer decides the result. */
  lemma {:induction false} FirstSomeAt(offers: seq<Option<string>>, i: nat)
    requires i < |offers| && offers[i].Some?
    requires forall j :: 0 <= j < i ==> offers[j].None?
    ensures FirstSome(offers) == offers[i]
    decreases i
  {
    if i > 0 {
      FirstSomeAt(offers[1..], i - 1);
    }
  }

  lemma {:induction false} FirstSomeNone(offers: seq<Option<string>>)
    requires forall j :: 0 <= j < |offers| ==> offers[j].None?
    ensures FirstSome(offers).None?
    decreases |offers|
  {
    if offers != [] {
      FirstSomeNone(offers[1..]);
    }
  }

  /** One offer is enough for there to be a first one. */
  lemma {:induction false} FirstSomeExists(offers: seq<Option<string>>, i: nat)
    requires i < |offers| && offers[i].Some?
    ensures FirstSome(offers).Some?
    decreases i
  {
    if i > 0 && offers[0].None? {
      FirstSomeExists(offers[1..], i - 1);
    }
  }

  /** Where the first offer stands. */
  lemma {:induction false} FirstSomeIndex(offers: seq<Option<string>>) returns (k: nat)
    requires FirstSome(offers).Some?
    ensures k < |offers| && offers[k] == FirstSome(offers)
    ensures forall j :: 0 <= j < k ==> offers[j].None?
    decreases |offers|
  {
    if offers[0].Some? {
      k := 0;
    } else {
      var k' := FirstSomeIndex(offers[1..]);
      k := k' + 1;
      assert forall j :: 1 <= j < k ==> offers[j] == offers[1..][j - 1];
    }
  }

  /** The first line that offers a password decides the result. */
  lemma FirstOfferAt(lines: seq<string>, name: string, user: string, i: nat)
    requires i < |lines| && Offer(lines[i], name, user).Some?
    requires forall j :: 0 <= j < i ==> Offer(lines[j], name, user).None?
    ensures FirstOffer(lines, name, user) == Offer(lines[i], name, user)
  {
    FirstSomeAt(Offers(lines, name, user), i);
  }

  /** Without an offering line there is no password. */
  lemma FirstOfferNone(lines: seq<string>, name: string, user: string)
    requires forall j :: 0 <= j < |lines| ==> Offer(lines[j], name, user).None?
    ensures FirstOffer(lines, name, user).None?
  {
    FirstSomeNone(Offers(lines, name, user));
  }

  /** A found password comes from the first offering line. */
  lemma FirstOfferFound(lines: seq<string>, name: string, user: string)
    requires FirstOffer(lines, name, user).Some?
    ensures exists i :: 0 <= i < |lines| && Offer(lines[i], name, user) == FirstOffer(lines, name, user)
              && forall j :: 0 <= j < i ==> Offer(lines[j], name, user).None?
  {
    var offers := Offers(lines, name, user);
    var k := FirstSomeIndex(offers);
    assert offers[k] == Offer(lines[k], name, user);
  }

  /** An offered password is never empty. */
  lemma OfferNonEmpty(line: string, name: string, user: string)
    requires Offer(line, name, user).Some?
    ensures Offer(line, name, user).value != ""
  {
  }

  /** No line offers a password. */
  predicate NoOffer(lines: seq<string>, name: string, user: string)
  {
    forall j :: 0 <= j < |lines| ==> Offer(lines[j], name, user).None?
  }

  /** Without decoding, `""` is returned exactly when no line offers a password. */
  lemma BlankMeansAbsent(contents: string, name: string, user: string, decode: string -> Option<string>)
    ensures PasswordOf(contents, name, user, false, decode) == "" <==> NoOffer(Split(contents, "\n"), name, user)
  {
    var lines := Split(contents, "\n");
    if NoOffer(lines, name, user) {
      FirstOfferNone(lines, name, user);
    } else {
      var i :| 0 <= i < |lines| && Offer(lines[i], name, user).Some?;
      NotAbsent(lines, name, user, i);
    }
  }

  lemma NotAbsent(lines: seq<string>, name: string, user: string, i: nat)
    requires i < |lines| && Offer(lines[i], name, user).Some?
    ensures FirstOffer(lines, name, user).Some? && FirstOffer(lines, name, user).value != ""
  {
    var offers := Offers(lines, name, user);
    FirstSomeExists(offers, i);
    var k := FirstSomeIndex(offers);
    OfferNonEmpty(lines[k], name, user);
  }

  /** The two skip tests never hide a record: a skipped line holds no colon. */
  lemma SkippedHoldNoColon(line: string)
    requires BlankLine(line) || CommentLine(line)
    ensures CountChar(line, ':') == 0
  {
    if BlankLine(line) {
      assert forall i :: 0 <= i < |line| ==> line[i] != ':';
    } else {
      assert forall i :: 2 <= i < |line| ==> line[i] == line[2..][i - 2];
      assert forall i :: 0 <= i < |line| ==> line[i] != ':';
    }
    assert ':' !in line;
  }

  /** A record `name:user:password` offers its password for that name and any spelling of the
      user that agrees up to case. */
  lemma RecordOffers(name: string, user: string, pw: string, asked: string)
    requires ':' !in name && ':' !in user && ':' !in pw && pw != ""
    requires Upper(asked) == Upper(user)
    ensures Offer(name + ":" + user + ":" + pw, name, asked) == Some(pw)
  {
    var line := name + ":" + user + ":" + pw;
    assert line == name + [':'] + user + [':'] + pw;
    SplitThree(name, user, pw, ':');
    NotSkipped(line);
  }

  /** A line holding a colon passes both skip tests. */
  lemma NotSkipped(line: string)
    requires CountChar(line, ':') > 0
    ensures !BlankLine(line) && !CommentLine(line)
  {
    if BlankLine(line) || CommentLine(line) {
      SkippedHoldNoColon(line);
    }
  }

  /** Conversely, a line that offers a password is a record `name:user':password` whose user
      agrees with the asked one up to case. */
  lemma OfferedRecord(line: string, name: string, user: string)
    requires Offer(line, name, user).Some?
    ensures var f := Split(line, ":");
      |f| == 3 && line == name + ":" + f[1] + ":" + Offer(line, name, user).value
      && Upper(f[1]) == Upper(user)
  {
    SplitCharCount(line, ':');
    SplitJoin(line, ":");
    JoinThree(Split(line, ":"), ":");
  }

  /** The user is compared without regard to case. */
  lemma CaseInsensitive(line: string, name: string, user: string)
    ensures Offer(line, name, user) == Offer(line, name, Upper(user))
  {
    assert Upper(Upper(user)) == Upper(user);
  }
}

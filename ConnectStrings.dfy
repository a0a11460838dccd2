/** `ParseConnectString` in Oracle.py: a connect string `user/password@tns` in which any part
    may be missing is split into its parts, the missing user and password are asked for, and
    the string handed to sqlplus is put back together, with ` as sysdba` for the SYS user. */
module ConnectStrings {
  import opened Failures
  import opened Text

  /** The string handed to sqlplus: `user/password`, then `@tns` when a TNS name is given,
      then ` as sysdba` when the user is SYS in any case. */
  function Compose(user: string, password: string, tns: string): string
  {
    var base := if tns == "" then user + "/" + password else user + "/" + password + "@" + tns;
    if Upper(user) == "SYS" then base + " as sysdba" else base
  }

  /** `(a, b) = s.split(c)`: the two pieces, or the ValueError of the unpacking. */
  function Pair(s: string, c: char, input: string): Result<(string, string)>
  {
    var p := Split(s, [c]);
    if |p| == 2 then Ok((p[0], p[1])) else Err(ValueError(input))
  }

  /** The user, password and TNS name that a string without both `@` and `/` gives before
      prompting. */
  function Fields(s: string): Result<(string, string, string)>
    requires !('@' in s && '/' in s)
  {
    if '@' !in s && '/' !in s then Ok(("", "", s))
    else if '@' in s then
      var (user, tns) :- Pair(s, '@', s);
      Ok((user, "", tns))
    else
      var (user, password) :- Pair(s, '/', s);
      Ok((user, password, ""))
  }

  /** The connect string for `s`. `promptedUser` and `promptedPassword` are what the user
      would type at the two prompts; they are consulted only when `s` lacks `@` or `/` and
      the respective part is empty. */
  function ParseConnectString(s: string, promptedUser: string, promptedPassword: string): (r: Result<string>)
    ensures r.Err? ==> r.error == ValueError(s) || r.error == MissingCredentials(s)
    ensures r == Err(MissingCredentials(s)) ==> !('@' in s && '/' in s)
  {
    if '@' in s && '/' in s then
      var (junk, tns) :- Pair(s, '@', s);
      var (user, password) :- Pair(junk, '/', s);
      Ok(Compose(user, password, tns))
    else
      var (user0, password0, tns) :- Fields(s);
      var user := if user0 == "" then promptedUser else user0;
      var password := if password0 == "" then promptedPassword else password0;
      if user == "" || password == "" then Err(MissingCredentials(s))
      else Ok(Compose(user, password, tns))
  }

  // Properties.

  predicate Clean(x: string)
  {
    '@' !in x && '/' !in x
  }

  lemma PairOf(a: string, c: char, b: string, input: string)
    requires c !in a && c !in b
    ensures Pair(a + [c] + b, c, input) == Ok((a, b))
  {
    SplitCharCons(a, c, b);
    SplitCharNone(b, c);
  }

  /** A full connect string is taken apart and put together again as it stands (plus the
      SYSDBA suffix), without prompting and even when the user or password is empty. */
  lemma FullString(user: string, password: string, tns: string, pu: string, pp: string)
    requires Clean(user) && Clean(password) && Clean(tns)
    ensures ParseConnectString(user + "/" + password + "@" + tns, pu, pp) == Ok(Compose(user, password, tns))
  {
    var junk := user + "/" + password;
    var s := user + "/" + password + "@" + tns;
    assert s == junk + ['@'] + tns;
    assert s[|user|] == '/' && s[|junk|] == '@';
    PairOf(junk, '@', tns, s);
    PairOf(user, '/', password, s);
  }

  /** `user/password` with both parts given needs no prompt. */
  lemma UserPassword(user: string, password: string, pu: string, pp: string)
    requires Clean(user) && Clean(password) && user != "" && password != ""
    ensures ParseConnectString(user + "/" + password, pu, pp) == Ok(Compose(user, password, ""))
  {
    var s := user + "/" + password;
    assert s == user + ['/'] + password;
    assert s[|user|] == '/';
    assert '@' !in s;
    PairOf(user, '/', password, s);
    assert Fields(s) == Ok((user, password, ""));
  }

  /** `user@tns` takes the password from the prompt, and fails without one. */
  lemma UserAtTns(user: string, tns: string, pu: string, pp: string)
    requires Clean(user) && Clean(tns) && user != ""
    ensures ParseConnectString(user + "@" + tns, pu, pp)
            == if pp == "" then Err(MissingCredentials(user + "@" + tns)) else Ok(Compose(user, pp, tns))
  {
    var s := user + "@" + tns;
    assert s == user + ['@'] + tns;
    assert s[|user|] == '@';
    PairOf(user, '@', tns, s);
  }

  /** A bare TNS name takes both the user and the password from the prompts. */
  lemma BareTns(tns: string, pu: string, pp: string)
    requires Clean(tns)
    ensures ParseConnectString(tns, pu, pp)
            == if pu == "" || pp == "" then Err(MissingCredentials(tns)) else Ok(Compose(pu, pp, tns))
  {
  }

  /** A prompt answer matters only for a part the string leaves empty, and neither matters
      when the string holds both `@` and `/`. */
  lemma PromptsForMissingOnly(s: string, pu: string, pp: string, pu': string, pp': string)
    ensures '@' in s && '/' in s ==> ParseConnectString(s, pu, pp) == ParseConnectString(s, pu', pp')
    ensures !('@' in s && '/' in s) && Fields(s).Ok? && Fields(s).value.0 != ""
            ==> ParseConnectString(s, pu, pp) == ParseConnectString(s, pu', pp)
    ensures !('@' in s && '/' in s) && Fields(s).Ok? && Fields(s).value.1 != ""
            ==> ParseConnectString(s, pu, pp) == ParseConnectString(s, pu, pp')
  {
  }

  /** Two `@` signs, or two `/` signs without an `@`, make the unpacking fail. */
  lemma TooManyParts(s: string, pu: string, pp: string)
    ensures CountChar(s, '@') >= 2 ==> ParseConnectString(s, pu, pp) == Err(ValueError(s))
    ensures '@' !in s && CountChar(s, '/') >= 2 ==> ParseConnectString(s, pu, pp) == Err(ValueError(s))
  {
    SplitCharCount(s, '@');
    SplitCharCount(s, '/');
    assert CountChar(s, '@') >= 2 ==> '@' in s;
  }

  predicate EndsWith(s: string, x: string)
  {
    |x| <= |s| && s[|s| - |x|..] == x
  }

  /** The result starts with `user/password`, and ends in ` as sysdba` for the SYS user. */
  lemma SysSuffix(user: string, password: string, tns: string)
    ensures StartsWith(Compose(user, password, tns), user + "/" + password)
    ensures Upper(user) == "SYS" ==> EndsWith(Compose(user, password, tns), " as sysdba")
  {
    var base := if tns == "" then user + "/" + password else user + "/" + password + "@" + tns;
    assert StartsWith(base, user + "/" + password) by {
      assert base[..|user + "/" + password|] == user + "/" + password;
    }
    var c := Compose(user, password, tns);
    assert c[..|base|] == base;
    if Upper(user) == "SYS" {
      assert c == base + " as sysdba";
      assert c[|c| - 10..] == " as sysdba";
    }
  }

  /** A composed string for a user other than SYS reads back as itself. */
  lemma ComposeReadsBack(user: string, password: string, tns: string, pu: string, pp: string)
    requires Clean(user) && Clean(password) && Clean(tns) && user != "" && password != ""
    requires Upper(user) != "SYS"
    ensures ParseConnectString(Compose(user, password, tns), pu, pp) == Ok(Compose(user, password, tns))
  {
    if tns == "" {
      UserPassword(user, password, pu, pp);
    } else {
      FullString(user, password, tns, pu, pp);
    }
  }
}

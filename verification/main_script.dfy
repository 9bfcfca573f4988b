/** `main.py`: the third entry script. It works on bare usernames, reads
    the lockout flag from the top level of the module, never rebinds the
    result key to the alias, and filters the raw bools like `hdtui.py`. The
    handlers run over the usernames paired with no password, so they share
    `Batch.Run`. */
module MainScript {
  import opened Wrappers
  import opened Strings
  import opened Json
  import opened OrderedMap
  import opened Client
  import opened Batch

  /** Drops the blank names and normalises the others, in order. */
  function KeepNames(us: seq<string>, norm: string -> string): (r: seq<string>)
    ensures |r| <= |us|
    ensures r == [] <==> forall i | 0 <= i < |us| :: IsBlank(us[i])
    decreases |us|
  {
    if |us| == 0 then []
    else
      var rest := KeepNames(us[1..], norm);
      assert forall i | 1 <= i < |us| :: us[1..][i - 1] == us[i];
      if IsBlank(us[0]) then rest else [norm(us[0])] + rest
  }

  /** Filtering bare names is filtering the same names paired with no
      password: `load_usernames` keeps what `load_credentials` keeps. */
  lemma {:induction false} KeepNamesAsCredentials(us: seq<string>, norm: string -> string)
    ensures KeepNames(us, norm) == Keys(KeepNamed(Unpaired(us), norm))
    decreases |us|
  {
    if |us| > 0 {
      var cs := Unpaired(us);
      assert cs[0] == (us[0], None) && cs[1..] == Unpaired(us[1..]);
      KeepNamesAsCredentials(us[1..], norm);
      var rest := KeepNamed(cs[1..], norm);
      if IsBlank(us[0]) {
        assert KeepNamed(cs, norm) == rest;
      } else {
        assert KeepNamed(cs, norm) == [(norm(us[0]), None)] + rest;
        KeysCons((norm(us[0]), None), rest);
      }
    }
  }

  lemma KeysCons(c: Credential, cs: seq<Credential>)
    ensures Keys([c] + cs) == [c.0] + Keys(cs)
  {
  }

  lemma {:induction false} KeepNamesAppend(a: seq<string>, b: seq<string>, norm: string -> string)
    ensures KeepNames(a + b, norm) == KeepNames(a, norm) + KeepNames(b, norm)
    decreases |a|
  {
    if |a| > 0 {
      assert (a + b)[0] == a[0];
      assert (a + b)[1..] == a[1..] + b;
      KeepNamesAppend(a[1..], b, norm);
    } else {
      assert a + b == b;
    }
  }

  /** `load_usernames`: `tokens` is `shlex.split(content)` of the input file
      when one is named. The command-line names come first, then the file's
      tokens, each normalised, the blank ones dropped; the result equals
      the names `load_credentials` would keep from the same list. */
  function LoadUsernames(names: seq<string>, tokens: Option<seq<string>>): (r: seq<string>)
    ensures tokens.None? ==> r == KeepNames(names, ParseUsername)
    ensures tokens.Some? ==> r == KeepNames(names, ParseUsername) + KeepNames(tokens.value, ParseUsername)
    ensures tokens.None? ==> r == Keys(KeepNamed(Unpaired(names), ParseUsername))
    ensures tokens.Some? ==> r == Keys(KeepNamed(Unpaired(names + tokens.value), ParseUsername))
  {
    var file := match tokens case None => [] case Some(t) => t;
    assert names + [] == names;
    KeepNamesAppend(names, file, ParseUsername);
    KeepNamesAsCredentials(names + file, ParseUsername);
    KeepNames(names + file, ParseUsername)
  }

  /** The lockout flag read from the top level of the module itself: a bool whenever the module is a dict, `True` exactly when the
      flag is the string `"true"`. */
  function TopLevelLockout(b: Backend, zid: Value): (r: Result<Value>)
    ensures r.Ok? ==> r.value.Bool?
    ensures r == Ok(Bool(true)) <==>
      && b.getModule("usernamesHDStudent", zid).Ok?
      && b.getModule("usernamesHDStudent", zid).value.Obj?
      && Lookup(b.getModule("usernamesHDStudent", zid).value.fields, "activeDirectoryLockout") == Some(Str("true"))
  {
    var page :- b.getModule("usernamesHDStudent", zid);
    var flag :- Get(page, "activeDirectoryLockout", Null);
    Ok(Bool(flag == Str("true")))
  }

  /** The `handle_lockout` loop body of `main.py`: the result stays under
      the name asked for, never the alias. */
  function MainLockoutWrites(b: Backend, user: string): (ws: Writes)
    ensures |ws| == 1 && ws[0].0 == Str(user)
    ensures Identify(b, user).Err? ==> ws == Caught(Str(user), Identify(b, user).msg)
    ensures Identify(b, user).Ok? ==> ws == Single(Str(user), TopLevelLockout(b, Identify(b, user).value.0))
  {
    match Identify(b, user)
    case Err(e) => Caught(Str(user), e)
    case Ok((zid, _)) => Single(Str(user), TopLevelLockout(b, zid))
  }

  function MainLockoutStep(b: Backend): Credential -> Writes {
    (c: Credential) => MainLockoutWrites(b, c.0)
  }

  /** `results[user] = client.get_user_status(user)`: the status is stored
      as the backend returns it, and every exception becomes an error
      entry. */
  function MainActiveStep(b: Backend): Credential -> Writes {
    (c: Credential) => Single(Str(c.0), b.userStatus(c.0))
  }

  /** On a bool status, and on an exception, `main.py` stores what
      `hdtui.py` stores without `--locked`; a falsy answer that is not a
      bool, the empty string say, is stored as it is by `main.py` and as
      `False` by the other two scripts. */
  lemma ActiveAgreesOnBools(b: Backend, c: Credential)
    ensures b.userStatus(c.0).Err? || b.userStatus(c.0).value.Bool? ==>
      MainActiveStep(b)(c) == ActiveStep(b, false, false)(c)
    ensures b.userStatus(c.0).Ok? && b.userStatus(c.0).value == Str("") ==>
      MainActiveStep(b)(c) == [(Str(c.0), Str(""))] && ActiveStep(b, false, false)(c) == [(Str(c.0), Bool(false))]
  {
  }

  // ---------------------------------------------------------------------
  // Runs keyed by the names themselves

  /** A loop body's assignments for one identity: at least one, and only
      under the name it was given. */
  predicate NamedBy(c: Credential, ws: Writes) {
    |ws| >= 1 && forall j | 0 <= j < |ws| :: ws[j].0 == Str(c.0)
  }

  ghost predicate KeyedByName(step: Credential -> Writes) {
    forall c: Credential :: NamedBy(c, step(c))
  }

  lemma OneWriteNamed(c: Credential, ws: Writes)
    requires |ws| == 1 && ws[0].0 == Str(c.0)
    ensures NamedBy(c, ws)
  {
  }

  /** Every loop body of `main.py` is keyed by the name. */
  lemma MainLockoutKeyed(b: Backend)
    ensures KeyedByName(MainLockoutStep(b))
  {
    forall c: Credential
      ensures NamedBy(c, MainLockoutStep(b)(c))
    {
      var ws := MainLockoutWrites(b, c.0);
      assert MainLockoutStep(b)(c) == ws;
      OneWriteNamed(c, ws);
    }
  }

  lemma MainActiveKeyed(b: Backend)
    ensures KeyedByName(MainActiveStep(b))
  {
    forall c: Credential
      ensures NamedBy(c, MainActiveStep(b)(c))
    {
      var ws := Single(Str(c.0), b.userStatus(c.0));
      assert MainActiveStep(b)(c) == ws;
      OneWriteNamed(c, ws);
    }
  }

  lemma AbroadKeyed(b: Backend)
    ensures KeyedByName(AbroadStep(b))
  {
    forall c: Credential
      ensures NamedBy(c, AbroadStep(b)(c))
    {
      var ws := Single(Str(c.0), b.abroadStatus(c.0));
      assert AbroadStep(b)(c) == ws;
      OneWriteNamed(c, ws);
    }
  }

  lemma LastpassKeyed(b: Backend)
    ensures KeyedByName(LastpassStep(b))
  {
    forall c: Credential
      ensures NamedBy(c, LastpassStep(b)(c))
    {
      var ws := Single(Str(c.0), GetLastPasswordChange(b, c.0));
      assert LastpassStep(b)(c) == ws;
      OneWriteNamed(c, ws);
    }
  }

  /** Every assignment of a keyed run is to one of the names. */
  lemma {:induction false} AllWritesNamed(creds: seq<Credential>, step: Credential -> Writes)
    requires KeyedByName(step)
    ensures forall j | 0 <= j < |AllWrites(creds, step)| ::
      exists i | 0 <= i < |creds| :: AllWrites(creds, step)[j].0 == Str(creds[i].0)
    decreases |creds|
  {
    var ws := AllWrites(creds, step);
    if |creds| > 0 {
      var here := step(creds[0]);
      var tail := creds[1..];
      var rest := AllWrites(tail, step);
      assert ws == here + rest;
      AllWritesNamed(tail, step);
      assert NamedBy(creds[0], here);
      forall j | 0 <= j < |ws|
        ensures exists i | 0 <= i < |creds| :: ws[j].0 == Str(creds[i].0)
      {
        if j < |here| {
          assert ws[j] == here[j];
        } else {
          assert ws[j] == rest[j - |here|];
          var i :| 0 <= i < |tail| && rest[j - |here|].0 == Str(tail[i].0);
          assert tail[i] == creds[i + 1];
        }
      }
    }
  }

  /** Each name of a keyed run is assigned at least once. */
  lemma {:induction false} AllNamesWritten(creds: seq<Credential>, step: Credential -> Writes, i: nat)
    requires KeyedByName(step) && i < |creds|
    ensures exists j | 0 <= j < |AllWrites(creds, step)| :: AllWrites(creds, step)[j].0 == Str(creds[i].0)
    decreases |creds|
  {
    var ws := AllWrites(creds, step);
    var here := step(creds[0]);
    var tail := creds[1..];
    var rest := AllWrites(tail, step);
    assert ws == here + rest;
    if i == 0 {
      assert NamedBy(creds[0], here);
      assert ws[0] == here[0];
    } else {
      AllNamesWritten(tail, step, i - 1);
      assert tail[i - 1] == creds[i];
      var j :| 0 <= j < |rest| && rest[j].0 == Str(tail[i - 1].0);
      assert ws[|here| + j] == rest[j];
    }
  }

  /** The value left under `k` is the starting one or the value of an
      assignment to a key equal to `k`; and once such an assignment exists
      some value is left. */
  lemma {:induction false} LastWriteSource(ws: Writes, k: Value, cur: Option<Value>)
    ensures LastWrite(ws, k, cur) == cur ||
      exists j | 0 <= j < |ws| :: KeyEq(ws[j].0, k) && LastWrite(ws, k, cur) == Some(ws[j].1)
    ensures (exists j | 0 <= j < |ws| :: KeyEq(ws[j].0, k)) ==> LastWrite(ws, k, cur).Some?
    decreases |ws|
  {
    if |ws| > 0 {
      var cur' := if KeyEq(ws[0].0, k) then Some(ws[0].1) else cur;
      var tail := ws[1..];
      assert forall j | 0 <= j < |tail| :: tail[j] == ws[j + 1];
      LastWriteSource(tail, k, cur');
      assert LastWrite(ws, k, cur) == LastWrite(tail, k, cur');
      if LastWrite(tail, k, cur') != cur' {
        var j :| 0 <= j < |tail| && KeyEq(tail[j].0, k) && LastWrite(tail, k, cur') == Some(tail[j].1);
        assert KeyEq(ws[j + 1].0, k);
      }
      if exists j | 0 <= j < |ws| :: KeyEq(ws[j].0, k) {
        var j :| 0 <= j < |ws| && KeyEq(ws[j].0, k);
        if j > 0 {
          assert KeyEq(tail[j - 1].0, k);
        }
      }
    }
  }

  /** A keyed run never aborts: every key is a string. */
  lemma KeyedRunOk(creds: seq<Credential>, step: Credential -> Writes)
    requires KeyedByName(step)
    ensures Run(creds, step).Ok?
  {
    var ws := AllWrites(creds, step);
    AllWritesNamed(creds, step);
    RunIsolation(creds, step);
    forall j | 0 <= j < |ws|
      ensures Hashable(ws[j].0)
    {
      var i :| 0 <= i < |creds| && ws[j].0 == Str(creds[i].0);
    }
  }

  /** Only the names are assigned in a keyed run. */
  lemma OnlyNamesWritten(creds: seq<Credential>, step: Credential -> Writes, k: Value)
    requires KeyedByName(step)
    requires LastWrite(AllWrites(creds, step), k, None).Some?
    ensures exists i | 0 <= i < |creds| :: k == Str(creds[i].0)
  {
    var ws := AllWrites(creds, step);
    AllWritesNamed(creds, step);
    LastWriteSource(ws, k, None);
    var j :| 0 <= j < |ws| && KeyEq(ws[j].0, k) && LastWrite(ws, k, None) == Some(ws[j].1);
    var i :| 0 <= i < |creds| && ws[j].0 == Str(creds[i].0);
    assert k == Str(creds[i].0);
  }

  /** Every name is assigned in a keyed run. */
  lemma EveryNameWritten(creds: seq<Credential>, step: Credential -> Writes, i: nat)
    requires KeyedByName(step) && i < |creds|
    ensures LastWrite(AllWrites(creds, step), Str(creds[i].0), None).Some?
  {
    var ws := AllWrites(creds, step);
    AllNamesWritten(creds, step, i);
    var j :| 0 <= j < |ws| && ws[j].0 == Str(creds[i].0);
    assert KeyEq(ws[j].0, Str(creds[i].0));
    LastWriteSource(ws, Str(creds[i].0), None);
  }

  /** A status handler of `main.py` never aborts, and under `all` its
      report has an entry for exactly the names it was given. With any
      other filter every entry left is still under one of the names. */
  lemma KeyedReport(creds: seq<Credential>, step: Credential -> Writes, s: Status, filter: string)
    requires KeyedByName(step)
    ensures FlagReport(creds, step, s, filter).Ok?
    ensures forall k :: Find(FlagReport(creds, step, s, filter).value, k).Some? ==>
      exists i | 0 <= i < |creds| :: k == Str(creds[i].0)
    ensures filter == "all" ==> forall i | 0 <= i < |creds| ::
      Find(FlagReport(creds, step, s, filter).value, Str(creds[i].0)).Some?
  {
    KeyedRunOk(creds, step);
    var ws := AllWrites(creds, step);
    var r := FlagReport(creds, step, s, filter).value;
    forall k | Find(r, k).Some?
      ensures exists i | 0 <= i < |creds| :: k == Str(creds[i].0)
    {
      assert FlagKept(LastWrite(ws, k, None), s, filter).Some?;
      OnlyNamesWritten(creds, step, k);
    }
    if filter == "all" {
      forall i | 0 <= i < |creds|
        ensures Find(r, Str(creds[i].0)).Some?
      {
        EveryNameWritten(creds, step, i);
      }
    }
  }

  /** Under `locked` a value stays exactly when it is `True`. */
  lemma LockedKeepsTrue(o: Option<Value>)
    ensures FlagKept(o, Locked, "locked").Some? <==> o == Some(Bool(true))
  {
    assert Lower("locked") == "locked";
  }

  /** The `handle_lockout` report of `main.py` for `locked` lists exactly
      the names whose module carries the string `"true"`. */
  lemma LockedReport(b: Backend, creds: seq<Credential>, i: nat)
    requires i < |creds|
    requires forall j | 0 <= j < |creds| && j != i :: creds[j].0 != creds[i].0
    ensures var r := FlagReport(creds, MainLockoutStep(b), Locked, "locked");
      && r.Ok?
      && (Find(r.value, Str(creds[i].0)).Some? <==> MainLockoutWrites(b, creds[i].0)[0].1 == Bool(true))
  {
    var step := MainLockoutStep(b);
    MainLockoutKeyed(b);
    KeyedRunOk(creds, step);
    var ws := AllWrites(creds, step);
    var k := Str(creds[i].0);
    OnlyWriteOf(creds, step, i);
    LockedKeepsTrue(LastWrite(ws, k, None));
  }

  /** When the names differ, the only assignment to a name is its own
      loop body's single one. */
  lemma {:induction false} OnlyWriteOf(creds: seq<Credential>, step: Credential -> Writes, i: nat)
    requires i < |creds|
    requires forall j | 0 <= j < |creds| && j != i :: creds[j].0 != creds[i].0
    requires KeyedByName(step) && forall c: Credential :: |step(c)| == 1
    ensures LastWrite(AllWrites(creds, step), Str(creds[i].0), None) == Some(step(creds[i])[0].1)
    decreases |creds|
  {
    var k := Str(creds[i].0);
    var tail := creds[1..];
    var here := step(creds[0]);
    var rest := AllWrites(tail, step);
    assert AllWrites(creds, step) == here + rest;
    assert forall j | 0 <= j < |tail| :: tail[j] == creds[j + 1];
    assert NamedBy(creds[0], here) && |here| == 1;
    assert here == [here[0]];
    if i == 0 {
      forall j | 0 <= j < |rest|
        ensures !KeyEq(rest[j].0, k)
      {
        AllWritesNamed(tail, step);
        var m :| 0 <= m < |tail| && rest[j].0 == Str(tail[m].0);
        assert tail[m] == creds[m + 1];
      }
      LastWriteIgnoresOthers(here, rest, k, None);
      assert here[1..] == [];
    } else {
      OnlyWriteOf(tail, step, i - 1);
      assert !KeyEq(here[0].0, k);
      assert (here + rest)[1..] == rest;
    }
  }
}

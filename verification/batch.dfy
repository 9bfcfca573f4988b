/** The per-identity layer the batch entry scripts share: reading
    credentials, what each handler assigns into its `results` dict for one
    identity (including what its `except` clause stores), and the loop that
    folds those assignments into the dict. The handlers of `hdcli.py` and
    `hdtui.py` run the same loop bodies; where they differ the difference is
    a parameter. */
module Batch {
  import opened Wrappers
  import opened Strings
  import opened Json
  import opened OrderedMap
  import opened Client

  // ---------------------------------------------------------------------
  // Credentials

  /** A username and, when one was given, a password. */
  type Credential = (string, Option<string>)

  /** `extract_cred`: a line of the input file split on tabs. One field is a
      username alone, two are a username and a password, more are refused
      with an empty username (which `load_credentials` then drops). */
  function ExtractCred(x: string): (r: Credential)
    ensures '\t' !in x ==> r == (x, None)
    ensures r.1.Some? ==> x == r.0 + "\t" + r.1.value && '\t' !in r.0 && '\t' !in r.1.value
    ensures '\t' in x && r.1.None? ==> r.0 == ""
  {
    var y := Split(x, "\t");
    assert Join(y, "\t") == x;
    if |y| == 1 then
      NotContainsChar(y[0], '\t');
      (y[0], None)
    else if |y| == 2 then
      assert Join(y, "\t") == y[0] + "\t" + y[1];
      NotContainsChar(y[0], '\t');
      NotContainsChar(y[1], '\t');
      (y[0], Some(y[1]))
    else ("", None)
  }

  /** A line with one tab gives back the username and password it was
      written from. */
  lemma CredentialRoundTrip(user: string, password: string)
    requires '\t' !in user && '\t' !in password
    ensures ExtractCred(user + "\t" + password) == (user, Some(password))
  {
    SplitCons(user, password, '\t');
    SplitNone(password, '\t');
  }

  /** A line with two or more tabs is refused. */
  lemma {:induction false} TooManyTabs(a: string, b: string, c: string)
    requires '\t' !in a && '\t' !in b
    ensures ExtractCred(a + "\t" + b + "\t" + c) == ("", None)
  {
    var rest := b + "\t" + c;
    assert a + "\t" + b + "\t" + c == a + "\t" + rest;
    SplitCons(a, rest, '\t');
    SplitCons(b, c, '\t');
  }

  /** Drop the credentials whose username is blank and apply `norm` to the
      others; the password is carried along unchanged. */
  function KeepNamed(cs: seq<Credential>, norm: string -> string): (r: seq<Credential>)
    ensures |r| <= |cs|
    ensures r == [] <==> forall i | 0 <= i < |cs| :: IsBlank(cs[i].0)
    decreases |cs|
  {
    if |cs| == 0 then []
    else
      var rest := KeepNamed(cs[1..], norm);
      assert forall i | 1 <= i < |cs| :: cs[1..][i - 1] == cs[i];
      if IsBlank(cs[0].0) then rest else [(norm(cs[0].0), cs[0].1)] + rest
  }

  /** The filter works entry by entry: the order of the input is kept. */
  lemma {:induction false} KeepNamedAppend(a: seq<Credential>, b: seq<Credential>, norm: string -> string)
    ensures KeepNamed(a + b, norm) == KeepNamed(a, norm) + KeepNamed(b, norm)
    decreases |a|
  {
    if |a| > 0 {
      assert (a + b)[0] == a[0];
      assert (a + b)[1..] == a[1..] + b;
      KeepNamedAppend(a[1..], b, norm);
    } else {
      assert a + b == b;
    }
  }

  /** The credentials kept are exactly the normalised forms of the
      non-blank ones. */
  lemma {:induction false} KeepNamedSource(cs: seq<Credential>, norm: string -> string)
    ensures forall c | c in KeepNamed(cs, norm) :: exists x | x in cs :: !IsBlank(x.0) && c == (norm(x.0), x.1)
    ensures forall x | x in cs && !IsBlank(x.0) :: (norm(x.0), x.1) in KeepNamed(cs, norm)
    decreases |cs|
  {
    if |cs| > 0 {
      var rest := KeepNamed(cs[1..], norm);
      assert KeepNamed(cs, norm) == if IsBlank(cs[0].0) then rest else [(norm(cs[0].0), cs[0].1)] + rest;
      KeepNamedSource(cs[1..], norm);
      assert forall x | x in cs[1..] :: x in cs;
      assert cs == [cs[0]] + cs[1..];
    }
  }

  /** `parse_username` applied to every non-blank username. */
  function Normalise(cs: seq<Credential>): seq<Credential> {
    KeepNamed(cs, ParseUsername)
  }

  /** The command-line usernames, without passwords. */
  function Unpaired(names: seq<string>): (r: seq<Credential>)
    ensures |r| == |names| && forall i | 0 <= i < |names| :: r[i] == (names[i], None)
  {
    seq(|names|, i requires 0 <= i < |names| => (names[i], None))
  }

  /** The list `load_credentials` starts from: the command-line names, or a
      single placeholder `("", "")` when there are none. */
  function Seed(names: seq<string>): seq<Credential> {
    if |names| > 0 then Unpaired(names) else [("", Some(""))]
  }

  /** The credentials read from the input file, one per line. */
  function FileCredentials(content: string): (r: seq<Credential>)
    ensures |r| == |Split(content, "\n")|
  {
    var lines := Split(content, "\n");
    seq(|lines|, i requires 0 <= i < |lines| => ExtractCred(lines[i]))
  }

  /** `load_credentials` of `hdcli.py` and `hdtui.py`; `input` is the content
      of the input file when one was named. The command-line names come
      first, without passwords, then the file's lines in order, each part
      filtered on its own; the placeholder never survives. */
  function LoadCredentials(names: seq<string>, input: Option<string>): (r: seq<Credential>)
    ensures input.None? ==> r == Normalise(Unpaired(names))
    ensures input.Some? ==> r == Normalise(Unpaired(names)) + Normalise(FileCredentials(input.value))
  {
    var file := match input case None => [] case Some(content) => FileCredentials(content);
    KeepNamedAppend(Seed(names), file, ParseUsername);
    assert Seed(names) + [] == Seed(names);
    assert |names| == 0 ==> Unpaired(names) == [] && Normalise(Seed(names)) == [];
    Normalise(Seed(names) + file)
  }

  /** Keeping the named entries of a password-less list. */
  lemma KeepUnpaired(names: seq<string>, norm: string -> string)
    ensures forall c | c in KeepNamed(Unpaired(names), norm) ::
      c.1 == None && exists n | n in names :: !IsBlank(n) && c.0 == norm(n)
  {
    var cs := Unpaired(names);
    KeepNamedSource(cs, norm);
    forall c | c in KeepNamed(cs, norm)
      ensures c.1 == None && exists n | n in names :: !IsBlank(n) && c.0 == norm(n)
    {
      var x :| x in cs && !IsBlank(x.0) && c == (norm(x.0), x.1);
      var i :| 0 <= i < |cs| && cs[i] == x;
      assert x.0 in names;
    }
  }

  /** Without a file every credential is a normalised non-blank name from
      the command line, with no password. */
  lemma CommandLineOnly(names: seq<string>)
    ensures forall c | c in LoadCredentials(names, None) ::
      c.1 == None && exists n | n in names :: !IsBlank(n) && c.0 == ParseUsername(n)
  {
    KeepUnpaired(names, ParseUsername);
  }

  // ---------------------------------------------------------------------
  // The results dict

  /** The assignments `results[key] = value` one identity's loop body makes,
      in order. */
  type Writes = seq<Entry>

  /** `results[key] = {"error": str(e)}` in an `except` clause. */
  function Caught(key: Value, msg: string): Writes {
    [(key, ErrorValue(msg))]
  }

  /** `try: results[key] = call() except Exception as e: results[key] =
      {"error": str(e)}` */
  function Single(key: Value, call: Result<Value>): (ws: Writes)
    ensures |ws| == 1 && ws[0].0 == key
    ensures call.Ok? ==> ws[0].1 == call.value
    ensures call.Err? ==> ws[0].1 == ErrorValue(call.msg)
  {
    match call
    case Ok(v) => [(key, v)]
    case Err(e) => Caught(key, e)
  }

  /** The value a sequence of assignments leaves under `k`: the last one to
      an equal key, else `cur`. */
  function LastWrite(ws: Writes, k: Value, cur: Option<Value>): Option<Value>
    decreases |ws|
  {
    if |ws| == 0 then cur
    else LastWrite(ws[1..], k, if KeyEq(ws[0].0, k) then Some(ws[0].1) else cur)
  }

  /** Performing the assignments in order. The first unhashable key raises
      `TypeError` inside the `try`, and the `except` clause, assigning under
      the same key, raises it again: the whole run stops there. */
  function ApplyWrites(d: Dict, ws: Writes): (r: Result<Dict>)
    ensures r.Err? <==> exists i | 0 <= i < |ws| :: !Hashable(ws[i].0)
    ensures r.Ok? && Distinct(d) ==> Distinct(r.value)
    ensures r.Ok? ==> forall k :: Find(r.value, k) == LastWrite(ws, k, Find(d, k))
    decreases |ws|
  {
    if |ws| == 0 then Ok(d)
    else
      assert forall i | 1 <= i < |ws| :: ws[1..][i - 1] == ws[i];
      match Put(d, ws[0].0, ws[0].1)
      case Err(e) => Err(e)
      case Ok(d') =>
        var r := ApplyWrites(d', ws[1..]);
        if r.Ok? then
          PutThenFind(d, ws[0].0, ws[0].1, d');
          r
        else r
  }

  lemma PutThenFind(d: Dict, k: Value, v: Value, d': Dict)
    requires Put(d, k, v) == Ok(d')
    ensures forall k' :: Find(d', k') == if KeyEq(k, k') then Some(v) else Find(d, k')
  {
    forall k'
      ensures Find(d', k') == if KeyEq(k, k') then Some(v) else Find(d, k')
    {
      if KeyEq(k, k') {
        IndexOfKeyEq(d', k, k');
      } else {
        KeyEqEquivalence(k', k, k);
      }
    }
  }

  /** All assignments of a run, identity after identity. */
  function AllWrites(creds: seq<Credential>, step: Credential -> Writes): (ws: Writes)
    decreases |creds|
  {
    if |creds| == 0 then [] else step(creds[0]) + AllWrites(creds[1..], step)
  }

  /** The loop `for username, password in credentials:` of a handler,
      starting from `results = {}`. */
  function Run(creds: seq<Credential>, step: Credential -> Writes): (r: Result<Dict>)
    ensures r.Ok? ==> Distinct(r.value)
  {
    ApplyWrites([], AllWrites(creds, step))
  }

  /** Some key of `ks` equals `k` as Python compares keys. */
  predicate HasKey(ks: seq<Value>, k: Value) {
    exists j | 0 <= j < |ks| :: KeyEq(ks[j], k)
  }

  /** Reference order of a dict's keys: starting from `ks`, each assigned
      key is appended the first time no equal key is present yet. */
  function KeyOrder(ks: seq<Value>, ws: Writes): seq<Value>
    decreases |ws|
  {
    if |ws| == 0 then ks
    else KeyOrder(if HasKey(ks, ws[0].0) then ks else ks + [ws[0].0], ws[1..])
  }

  /** A dict keeps its keys in the order they were first assigned: a later
      assignment to an equal key changes the value, not the position. */
  lemma {:induction false} ApplyWritesKeys(d: Dict, ws: Writes)
    requires ApplyWrites(d, ws).Ok?
    ensures Keys(ApplyWrites(d, ws).value) == KeyOrder(Keys(d), ws)
    decreases |ws|
  {
    if |ws| > 0 {
      var d' := Put(d, ws[0].0, ws[0].1).value;
      assert ApplyWrites(d, ws) == ApplyWrites(d', ws[1..]);
      if Find(d, ws[0].0).Some? {
        var i := OrderedMap.IndexOf(d, ws[0].0).value;
        assert Keys(d)[i] == d[i].0;
      } else {
        forall j | 0 <= j < |Keys(d)|
          ensures !KeyEq(Keys(d)[j], ws[0].0)
        {
          assert Keys(d)[j] == d[j].0;
        }
      }
      ApplyWritesKeys(d', ws[1..]);
    }
  }

  /** The results dict of a run lists its keys in the order the loop first
      assigned them. */
  lemma RunKeys(creds: seq<Credential>, step: Credential -> Writes)
    requires Run(creds, step).Ok?
    ensures Keys(Run(creds, step).value) == KeyOrder([], AllWrites(creds, step))
  {
    var empty: Dict := [];
    ApplyWritesKeys(empty, AllWrites(creds, step));
    assert Keys(empty) == [];
  }

  /** Each identity's entry is what the last assignment to its key left
      there: a failure stored for one identity does not disturb any other
      key, and the run only aborts on an unhashable key. */
  lemma RunIsolation(creds: seq<Credential>, step: Credential -> Writes)
    ensures Run(creds, step).Err? <==>
      exists i | 0 <= i < |AllWrites(creds, step)| :: !Hashable(AllWrites(creds, step)[i].0)
    ensures Run(creds, step).Ok? ==>
      forall k :: Find(Run(creds, step).value, k) == LastWrite(AllWrites(creds, step), k, None)
  {
    var ws := AllWrites(creds, step);
    var r := ApplyWrites([], ws);
    assert Run(creds, step) == r;
    if r.Err? {
      var i :| 0 <= i < |ws| && !Hashable(ws[i].0);
      assert !Hashable(AllWrites(creds, step)[i].0);
    } else {
      assert forall i | 0 <= i < |AllWrites(creds, step)| :: Hashable(AllWrites(creds, step)[i].0);
      forall k
        ensures Find(r.value, k) == LastWrite(ws, k, None)
      {
        assert Find([], k) == None;
        assert Find(r.value, k) == LastWrite(ws, k, Find([], k));
      }
    }
  }

  /** A value stored and then replaced under the same key leaves no
      trace. */
  lemma LastWriteOverwritten(a: Value, x: Value, y: Value, k: Value)
    ensures LastWrite([(a, x)] + [(a, y)], k, None) == LastWrite([(a, y)], k, None)
  {
    var ws := [(a, x)] + [(a, y)];
    assert ws[1..] == [(a, y)];
    assert ws[1..][1..] == [] && [(a, y)][1..] == [];
  }

  /** Assignments to other keys do not change the value left under `k`. */
  lemma {:induction false} LastWriteIgnoresOthers(ws: Writes, more: Writes, k: Value, cur: Option<Value>)
    requires forall i | 0 <= i < |more| :: !KeyEq(more[i].0, k)
    ensures LastWrite(ws + more, k, cur) == LastWrite(ws, k, cur)
    decreases |ws|
  {
    if |ws| > 0 {
      assert (ws + more)[1..] == ws[1..] + more;
      LastWriteIgnoresOthers(ws[1..], more, k, if KeyEq(ws[0].0, k) then Some(ws[0].1) else cur);
    } else {
      assert ws + more == more;
      LastWriteOthers(more, k, cur);
    }
  }

  lemma {:induction false} LastWriteOthers(ws: Writes, k: Value, cur: Option<Value>)
    requires forall i | 0 <= i < |ws| :: !KeyEq(ws[i].0, k)
    ensures LastWrite(ws, k, cur) == cur
    decreases |ws|
  {
    if |ws| > 0 {
      assert forall i | 1 <= i < |ws| :: ws[1..][i - 1] == ws[i];
      LastWriteOthers(ws[1..], k, cur);
    }
  }

  // ---------------------------------------------------------------------
  // Identity resolution

  /** `get_user_data` followed by `extract_id_and_username`: the record id
      and the alias the handler rebinds `username` to. Until this succeeds
      the key is still the name that was asked for. */
  function Identify(b: Backend, user: string): (r: Result<(Value, Value)>)
    ensures GetUserData(b, user).Err? ==> r == Err(GetUserData(b, user).msg)
    ensures GetUserData(b, user).Ok? ==> r == ExtractIdAndUsername(GetUserData(b, user).value)
  {
    var data :- GetUserData(b, user);
    ExtractIdAndUsername(data)
  }

  // ---------------------------------------------------------------------
  // Lockout and activity

  /** The lockout flag of the student-usernames page: the data of its first
      item, read under `activeDirectoryLockout` with `''` as the default. */
  function LockoutField(page: Value): (r: Result<Value>)
    ensures r.Ok? ==> exists items, first, data ::
      && Subscript(page, "items") == Ok(items) && Index0(items) == Ok(first)
      && Subscript(first, "data") == Ok(data) && data.Obj?
      && r.value == FieldOr(data.fields, "activeDirectoryLockout", Str(""))
  {
    var items :- Subscript(page, "items");
    var first :- Index0(items);
    var data :- Subscript(first, "data");
    Get(data, "activeDirectoryLockout", Str(""))
  }

  /** `if lockout_status == '': lockout_status = False`: only the empty
      string is replaced; any other value, `"false"` included, is kept. */
  function NormaliseLockout(v: Value): (r: Value)
    ensures v == Str("") <==> r == Bool(false) && v != Bool(false)
    ensures v != Str("") ==> r == v
    ensures Truthy(r) == Truthy(v)
  {
    if v == Str("") then Bool(false) else v
  }

  /** An account counts as active only when its status is truthy and it is
      not locked out; otherwise the status is reported as `False`. */
  function ComposeActive(status: Value, lockout: Value): (r: Value)
    ensures r == Bool(false) <==> !Truthy(status) || Truthy(lockout) || status == Bool(false)
    ensures r != Bool(false) ==> r == status
    ensures Truthy(r) <==> Truthy(status) && !Truthy(lockout)
  {
    if !Truthy(status) || Truthy(lockout) then Bool(false) else status
  }

  /** The lockout flag of an identity, normalised. */
  function FetchLockout(b: Backend, zid: Value): (r: Result<Value>)
    ensures r.Ok? ==> r.value != Str("")
    ensures b.getModule("usernamesHDStudent", zid).Err? ==> r == Err(b.getModule("usernamesHDStudent", zid).msg)
    ensures b.getModule("usernamesHDStudent", zid).Ok? ==>
      var field := LockoutField(b.getModule("usernamesHDStudent", zid).value);
      && (field.Err? ==> r == Err(field.msg))
      && (field.Ok? ==> r == Ok(NormaliseLockout(field.value)))
  {
    var page :- b.getModule("usernamesHDStudent", zid);
    var raw :- LockoutField(page);
    Ok(NormaliseLockout(raw))
  }

  /** The `lockout` loop body of `hdcli.py` and `hdtui.py`. */
  function LockoutWrites(b: Backend, user: string): (ws: Writes)
    ensures |ws| == 1
    ensures Identify(b, user).Err? ==> ws == Caught(Str(user), Identify(b, user).msg)
    ensures Identify(b, user).Ok? ==> ws[0].0 == Identify(b, user).value.1
    ensures Identify(b, user).Ok? ==>
      var fetched := FetchLockout(b, Identify(b, user).value.0);
      && (fetched.Ok? ==> ws[0].1 == fetched.value)
      && (fetched.Err? ==> ws[0].1 == ErrorValue(fetched.msg))
    ensures ws[0].1 != Str("")
  {
    match Identify(b, user)
    case Err(e) => Caught(Str(user), e)
    case Ok((zid, alias)) => Single(alias, FetchLockout(b, zid))
  }

  /** What the `active` handlers store after an exception: `hdcli.py` turns
      an exception whose text is `0` into "Not Found". */
  function ActiveCaught(key: Value, msg: string, notFound: bool): (ws: Writes)
    ensures |ws| == 1 && ws[0].0 == key
    ensures ws[0].1 == (if notFound && msg == "0" then Str("Not Found") else ErrorValue(msg))
  {
    if notFound && msg == "0" then [(key, Str("Not Found"))] else Caught(key, msg)
  }

  /** The `active` loop body. With `locked` the lockout flag is looked up
      (rebinding the key to the alias) and stored before the final value. */
  function ActiveWrites(b: Backend, user: string, locked: bool, notFound: bool): (ws: Writes)
    ensures 1 <= |ws| <= 2
    ensures b.userStatus(user).Ok? && !locked ==>
      ws == [(Str(user), ComposeActive(b.userStatus(user).value, Bool(false)))]
    ensures |ws| == 2 ==> && b.userStatus(user).Ok? && ws[0].0 == ws[1].0
                          && ws[1].1 == ComposeActive(b.userStatus(user).value, ws[0].1)
    ensures b.userStatus(user).Err? ==> ws == ActiveCaught(Str(user), b.userStatus(user).msg, notFound)
    ensures b.userStatus(user).Ok? && locked && Identify(b, user).Err? ==>
      ws == ActiveCaught(Str(user), Identify(b, user).msg, notFound)
    ensures b.userStatus(user).Ok? && locked && Identify(b, user).Ok? ==>
      var alias := Identify(b, user).value.1;
      var fetched := FetchLockout(b, Identify(b, user).value.0);
      && (fetched.Err? ==> ws == ActiveCaught(alias, fetched.msg, notFound))
      && (fetched.Ok? ==> ws == [(alias, fetched.value), (alias, ComposeActive(b.userStatus(user).value, fetched.value))])
  {
    match b.userStatus(user)
    case Err(e) => ActiveCaught(Str(user), e, notFound)
    case Ok(status) =>
      if !locked then [(Str(user), ComposeActive(status, Bool(false)))]
      else match Identify(b, user)
        case Err(e) => ActiveCaught(Str(user), e, notFound)
        case Ok((zid, alias)) =>
          match FetchLockout(b, zid)
          case Err(e) => ActiveCaught(alias, e, notFound)
          case Ok(lockout) => [(alias, lockout), (alias, ComposeActive(status, lockout))]
  }

  // ---------------------------------------------------------------------
  // Employee records

  /** A record's `data` object describes an employee record whose status
      is active (`A`). */
  predicate ActiveRecord(fields: seq<(string, Value)>) {
    && FieldOr(fields, "objectId", Null) == Str("employeeRecords")
    && FieldOr(fields, "status", Null) == Str("A")
  }

  /** One pass of the `for item in items` loop: `field` of the item's
      `data` when that is an active employee record, nothing otherwise; an
      item, or an item's `data`, that is not an object raises. */
  function RecordField(item: Value, field: string): (r: Result<seq<Value>>)
    ensures r.Ok? <==> item.Obj? && FieldOr(item.fields, "data", Obj([])).Obj?
    ensures r.Ok? ==> var data := FieldOr(item.fields, "data", Obj([])).fields;
      r.value == (if ActiveRecord(data) then [FieldOr(data, field, Null)] else [])
  {
    var data :- Get(item, "data", Obj([]));
    if !data.Obj? then Err(NoAttribute(data, "get"))
    else if ActiveRecord(data.fields) then Ok([FieldOr(data.fields, field, Null)])
    else Ok([])
  }

  /** The `for item in items` loop of `handle_department` and
      `handle_supervisor` in `hdcli.py`: `field` of every active employee
      record, in order, duplicates kept. The first item that raises aborts
      the loop. */
  function CollectFrom(items: seq<Value>, field: string): (r: Result<seq<Value>>)
    ensures r.Ok? ==> |r.value| <= |items|
    ensures r.Ok? <==> forall i | 0 <= i < |items| ::
      items[i].Obj? && FieldOr(items[i].fields, "data", Obj([])).Obj?
    ensures |items| == 1 ==> r == RecordField(items[0], field)
    decreases |items|
  {
    if |items| == 0 then Ok([])
    else
      var rest := CollectFrom(items[1..], field);
      assert forall i | 1 <= i < |items| :: items[1..][i - 1] == items[i];
      assert |items| == 1 && RecordField(items[0], field).Ok? ==>
        rest == Ok([]) && RecordField(items[0], field).value + [] == RecordField(items[0], field).value;
      Concat(RecordField(items[0], field), rest)
  }

  /** Collecting from a list split in two collects from the first part,
      then the second; with the one-item case this fixes `CollectFrom` on
      every list. */
  lemma {:induction false} CollectFromAppend(a: seq<Value>, b: seq<Value>, field: string)
    ensures CollectFrom(a + b, field) == Concat(CollectFrom(a, field), CollectFrom(b, field))
    decreases |a|
  {
    if |a| == 0 {
      assert a + b == b;
      assert CollectFrom(b, field).Ok? ==> [] + CollectFrom(b, field).value == CollectFrom(b, field).value;
    } else {
      assert (a + b)[0] == a[0];
      assert (a + b)[1..] == a[1..] + b;
      CollectFromAppend(a[1..], b, field);
      ConcatAssoc(RecordField(a[0], field), CollectFrom(a[1..], field), CollectFrom(b, field));
    }
  }

  /** An item whose `data` is a record only counts when it is an active
      employee record. */
  lemma {:induction false} CollectOne(data: seq<(string, Value)>, more: seq<(string, Value)>, field: string)
    requires Lookup(more, "data").None?
    ensures CollectFrom([Obj([("data", Obj(data))] + more)], field) ==
      Ok(if ActiveRecord(data) then [FieldOr(data, field, Null)] else [])
  {
    var item := Obj([("data", Obj(data))] + more);
    assert Lookup(item.fields, "data") == Some(Obj(data));
    assert FieldOr(item.fields, "data", Obj([])) == Obj(data);
    assert Get(item, "data", Obj([])) == Ok(Obj(data));
    assert [item][0] == item;
    assert [item][1..] == [];
    assert CollectFrom([], field) == Ok([]);
    assert [FieldOr(data, field, Null)] + [] == [FieldOr(data, field, Null)];
  }

  /** The names collected from the items of an `employeeRecords` module. */
  function Collect(items: Value, field: string): Result<seq<Value>> {
    var xs :- Iterate(items);
    CollectFrom(xs, field)
  }

  /** The loop body of `handle_department` (field `departmentName`) and
      `handle_supervisor` (field `supervisorName`) in `hdcli.py`. The empty
      list is stored under the alias before the items are looked at, so a
      later failure replaces it in place. */
  function EmployeeWrites(b: Backend, user: string, field: string): (ws: Writes)
    ensures 1 <= |ws| <= 2
    ensures Identify(b, user).Err? ==> ws == Caught(Str(user), Identify(b, user).msg)
    ensures Identify(b, user).Ok? ==>
      ws == RecordWrites(b, Identify(b, user).value.0, Identify(b, user).value.1, field)
  {
    match Identify(b, user)
    case Err(e) => Caught(Str(user), e)
    case Ok((zid, alias)) => RecordWrites(b, zid, alias, field)
  }

  /** The part of that loop body after the identity is resolved. */
  function RecordWrites(b: Backend, zid: Value, alias: Value, field: string): (ws: Writes)
    ensures 1 <= |ws| <= 2 && ws[|ws| - 1].0 == alias
    ensures |ws| == 2 ==> ws[0] == (alias, Arr([]))
    ensures b.getModule("employeeRecords", zid).Err? ==> ws == Caught(alias, b.getModule("employeeRecords", zid).msg)
    ensures b.getModule("employeeRecords", zid).Ok? ==>
      var items := Get(b.getModule("employeeRecords", zid).value, "items", Arr([]));
      && (items.Err? ==> ws == Caught(alias, items.msg))
      && (items.Ok? ==> |ws| == 2 && ws[1].1 == match Collect(items.value, field)
                                                 case Ok(names) => Arr(names)
                                                 case Err(e) => ErrorValue(e))
  {
    match b.getModule("employeeRecords", zid)
    case Err(e) => Caught(alias, e)
    case Ok(page) =>
      match Get(page, "items", Arr([]))
      case Err(e) => Caught(alias, e)
      case Ok(items) =>
        [(alias, Arr([]))] + Single(alias, Collect(items, field).Map(ns => Arr(ns)))
  }

  // ---------------------------------------------------------------------
  // Password reset

  const ResetFailed := "Password reset failed. No SuccessMessage returned."

  /** The entry `handle_reset` stores: the backend's `SuccessMessage` and
      `description`, plus an `error` when the message is missing or empty. */
  function ResetEntry(message: Value, description: Value): (r: Value)
    ensures r.Obj? && |r.fields| == (if Truthy(message) then 2 else 3)
    ensures r.fields[0] == ("SuccessMessage", message) && r.fields[1] == ("description", description)
    ensures !Truthy(message) ==> r.fields[2] == ("error", Str(ResetFailed))
  {
    var base := [("SuccessMessage", message), ("description", description)];
    if Truthy(message) then Obj(base) else Obj(base + [("error", Str(ResetFailed))])
  }

  /** The calls of `handle_reset` once the identity is resolved: reset,
      set the description, then read `SuccessMessage` from the first answer
      and `description` from the second. */
  function ResetCall(b: Backend, zid: Value, alias: Value): (r: Result<Value>)
    ensures b.resetPassword(alias, zid).Err? ==> r == Err(b.resetPassword(alias, zid).msg)
    ensures b.resetPassword(alias, zid).Ok? && b.setDescription(alias, zid).Err? ==>
      r == Err(b.setDescription(alias, zid).msg)
    ensures b.resetPassword(alias, zid).Ok? && b.setDescription(alias, zid).Ok? ==>
      var reset := b.resetPassword(alias, zid).value;
      var described := b.setDescription(alias, zid).value;
      && (!reset.Obj? ==> r == Err(NoAttribute(reset, "get")))
      && (reset.Obj? && !described.Obj? ==> r == Err(NoAttribute(described, "get")))
      && (reset.Obj? && described.Obj? ==>
            r == Ok(ResetEntry(FieldOr(reset.fields, "SuccessMessage", Null), FieldOr(described.fields, "description", Null))))
  {
    var reset :- b.resetPassword(alias, zid);
    var described :- b.setDescription(alias, zid);
    var message :- Get(reset, "SuccessMessage", Null);
    var description :- Get(described, "description", Null);
    Ok(ResetEntry(message, description))
  }

  /** The `handle_reset` loop body of `hdcli.py`. */
  function ResetWrites(b: Backend, user: string): (ws: Writes)
    ensures |ws| == 1
    ensures Identify(b, user).Err? ==> ws == Caught(Str(user), Identify(b, user).msg)
    ensures Identify(b, user).Ok? ==> ws[0].0 == Identify(b, user).value.1
    ensures Identify(b, user).Ok? ==>
      var call := ResetCall(b, Identify(b, user).value.0, Identify(b, user).value.1);
      && (call.Ok? ==> ws[0].1 == call.value)
      && (call.Err? ==> ws[0].1 == ErrorValue(call.msg))
  {
    match Identify(b, user)
    case Err(e) => Caught(Str(user), e)
    case Ok((zid, alias)) => Single(alias, ResetCall(b, zid, alias))
  }

  // ---------------------------------------------------------------------
  // Loop bodies shared by the entry scripts

  /** Stores the abroad-status oracle's answer under the input name. */
  function AbroadStep(b: Backend): Credential -> Writes {
    (c: Credential) => Single(Str(c.0), b.abroadStatus(c.0))
  }

  /** Stores the last password change under the input name. */
  function LastpassStep(b: Backend): Credential -> Writes {
    (c: Credential) => Single(Str(c.0), GetLastPasswordChange(b, c.0))
  }

  /** The `active` loop body, with `--locked` or without. */
  function ActiveStep(b: Backend, locked: bool, notFound: bool): Credential -> Writes {
    (c: Credential) => ActiveWrites(b, c.0, locked, notFound)
  }

  function LockoutStep(b: Backend): Credential -> Writes {
    (c: Credential) => LockoutWrites(b, c.0)
  }

  // ---------------------------------------------------------------------
  // Status filters and the plain rendering of a dict

  /** The three yes/no flags the batch commands report. */
  datatype Status = Abroad | Active | Locked

  /** The `--filter` choice that keeps a true flag. */
  function YesTarget(s: Status): string {
    match s
    case Abroad => "abroad"
    case Active => "active"
    case Locked => "locked"
  }

  /** The `--filter` choice that keeps a false flag. */
  function NoTarget(s: Status): string {
    match s
    case Abroad => "local"
    case Active => "inactive"
    case Locked => "unlocked"
  }

  /** The filter choice a flag `b` answers to. */
  function TargetOf(s: Status, b: bool): string {
    if b then YesTarget(s) else NoTarget(s)
  }

  /** `isinstance(status, bool) and ((status and target == yes) or (not
      status and target == no))`, as a selection keeping the value. */
  function KeepFlag(s: Status, target: string): Value -> Option<Value> {
    (v: Value) => if v.Bool? && target == TargetOf(s, v.b) then Some(v) else None
  }

  /** The filter of `hdtui.py` and `main.py`: with `all` nothing is removed,
      otherwise only the bools matching the lower-cased choice stay. */
  function BoolFilter(d: Dict, s: Status, filter: string): (r: Dict)
    ensures IsSubseq(Keys(r), Keys(d))
    ensures Distinct(d) ==> Distinct(r)
  {
    if filter == "all" then
      SubseqRefl(Keys(d));
      d
    else Select(d, KeepFlag(s, Lower(filter)))
  }

  /** Reference meaning of `BoolFilter` for one key. */
  function FlagKept(o: Option<Value>, s: Status, filter: string): Option<Value> {
    if filter == "all" then o
    else match o
      case Some(Bool(b)) => if Lower(filter) == TargetOf(s, b) then o else None
      case _ => None
  }

  /** Each key keeps its value exactly when it is a bool matching the
      filter, and under `all` every entry, an error entry included, stays. */
  lemma BoolFilterFind(d: Dict, s: Status, filter: string)
    requires Distinct(d)
    ensures forall k :: Find(BoolFilter(d, s, filter), k) == FlagKept(Find(d, k), s, filter)
    ensures filter == "all" ==> BoolFilter(d, s, filter) == d
  {
    if filter != "all" {
      forall k
        ensures Find(BoolFilter(d, s, filter), k) == FlagKept(Find(d, k), s, filter)
      {
        assert Find(BoolFilter(d, s, filter), k) == Then(Find(d, k), KeepFlag(s, Lower(filter)));
      }
    }
  }

  /** A status handler of `hdtui.py` or `main.py`: the loop over the
      identities, then the bool filter. Every key keeps the last value
      stored under it when the filter lets that value through. */
  function FlagReport(creds: seq<Credential>, step: Credential -> Writes, s: Status, filter: string): (r: Result<Dict>)
    ensures r.Err? <==> Run(creds, step).Err?
    ensures r.Ok? ==> Distinct(r.value)
    ensures r.Ok? ==> forall k :: Find(r.value, k) == FlagKept(LastWrite(AllWrites(creds, step), k, None), s, filter)
  {
    var d :- Run(creds, step);
    RunIsolation(creds, step);
    BoolFilterFind(d, s, filter);
    Ok(BoolFilter(d, s, filter))
  }

  /** `str(d)` of a results dict: the braces around the entries. */
  function DictRepr(d: Dict): (r: string)
    ensures |r| >= 2 && r[0] == '{' && r[|r| - 1] == '}'
    ensures d == [] ==> r == "{}"
  {
    "{" + Join(seq(|d|, i requires 0 <= i < |d| => Repr(d[i].0) + ": " + Repr(d[i].1)), ", ") + "}"
  }

  /** The files `handle_output` writes. The JSON file receives
      `json.dump(data)`, whose text is not modelled. */
  datatype Files =
    | NoFiles
    | TextFile(path: string, text: string)
    | JsonFile(path: string)
    | TextAndJson(txtPath: string, text: string, jsonPath: string)

  /** What `handle_output` prints; `PrintJson` is `json.dumps(data)`. */
  datatype Stdout = Silent | PrintText(text: string) | PrintJson

  datatype Output = Output(files: Files, stdout: Stdout)

  /** `handle_output` of `hdtui.py` and `main.py`; a file option is "" when
      not given. No handler there passes a formatter, so the text is always
      `str(data)`. */
  datatype FileOptions = FileOptions(output: string, outputJson: string, outputAll: string)

  /** Exactly one branch runs: `output_all`, else `output`, else
      `output_json`, else the text is printed. */
  function SingleOutput(o: FileOptions, raw: string): (r: Output)
    ensures r.files == NoFiles <==> r.stdout != Silent
    ensures r.stdout != Silent ==> r.stdout == PrintText(raw) && o == FileOptions("", "", "")
    ensures o.outputAll != "" ==> r.files == TextAndJson(o.outputAll + ".txt", raw, o.outputAll + ".json")
    ensures o.outputAll == "" && o.output != "" ==> r.files == TextFile(o.output, raw)
    ensures o.outputAll == "" && o.output == "" && o.outputJson != "" ==> r.files == JsonFile(o.outputJson)
  {
    if o.outputAll != "" then Output(TextAndJson(o.outputAll + ".txt", raw, o.outputAll + ".json"), Silent)
    else if o.output != "" then Output(TextFile(o.output, raw), Silent)
    else if o.outputJson != "" then Output(JsonFile(o.outputJson), Silent)
    else Output(NoFiles, PrintText(raw))
  }

  /** `handle_output` of `hdtui.py` and `main.py` for a results dict: the
      text written or printed is always `str(data)`. */
  function ReportOutput(o: FileOptions, d: Dict): (r: Output)
    ensures r.stdout != Silent ==> r.stdout == PrintText(DictRepr(d))
    ensures r.files.TextFile? ==> r.files.text == DictRepr(d)
    ensures r.files.TextAndJson? ==> r.files.text == DictRepr(d)
    ensures r.files == NoFiles <==> o == FileOptions("", "", "")
  {
    SingleOutput(o, DictRepr(d))
  }
}

/** `hdtui.py`: the earlier entry script. Its loop bodies are those of
    `hdcli.py` except for `login`, which stores the backend's answer as it
    is, `active`, which has no "Not Found" case, and `supervisor`, which is a
    list comprehension over `module['items']`. The status handlers filter
    the raw bools, so under `all` every entry stays, and no handler passes a
    formatter, so the output is `str(data)`. */
module Hdtui {
  import opened Wrappers
  import opened Strings
  import opened Json
  import opened OrderedMap
  import opened Client
  import opened Batch
  import Hdcli

  /** The loop body of `handle_login`: one write under the username, which
      keeps the backend's raw answer, or the error entry when it raised. */
  function LoginStep(b: Backend): (step: Credential -> Writes)
    ensures forall c: Credential :: |step(c)| == 1 && step(c)[0].0 == Str(c.0)
    ensures forall c: Credential | b.checkLogin(c.0, c.1).Ok? :: step(c)[0].1 == b.checkLogin(c.0, c.1).value
    ensures forall c: Credential | b.checkLogin(c.0, c.1).Err? :: step(c)[0].1 == ErrorValue(b.checkLogin(c.0, c.1).msg)
  {
    var step := (c: Credential) => Single(Str(c.0), b.checkLogin(c.0, c.1));
    assert forall c: Credential :: step(c) == Single(Str(c.0), b.checkLogin(c.0, c.1));
    step
  }

  /** The two `login` commands agree on keys and on failures; where the
      answer arrived, `hdcli.py` stores its truthiness as a label and
      `hdtui.py` stores the answer itself. */
  lemma LoginRawVersusLabel(b: Backend, c: Credential)
    ensures LoginStep(b)(c)[0].0 == Hdcli.LoginWrites(b, c)[0].0
    ensures b.checkLogin(c.0, c.1).Err? ==> LoginStep(b)(c)[0].1 == Hdcli.LoginWrites(b, c)[0].1
    ensures b.checkLogin(c.0, c.1).Ok? ==>
      Hdcli.LoginWrites(b, c)[0].1 == Str(if Truthy(LoginStep(b)(c)[0].1) then "Succeeded" else "Failed")
  {
  }

  /** A status handler reports one name exactly as the backend answered it
      when the filter is `all`, errors included; otherwise only a bool that
      matches the filter. */
  lemma {:induction false} FlagOfOne(c: Credential, step: Credential -> Writes, v: Value, s: Status, filter: string)
    requires step(c) == [(Str(c.0), v)]
    ensures FlagReport([c], step, s, filter).Ok?
    ensures Find(FlagReport([c], step, s, filter).value, Str(c.0)) ==
      if filter == "all" || (v.Bool? && Lower(filter) == TargetOf(s, v.b)) then Some(v) else None
  {
    assert AllWrites([c], step) == [(Str(c.0), v)] by {
      assert [c][1..] == [];
    }
    RunIsolation([c], step);
    assert LastWrite([(Str(c.0), v)], Str(c.0), None) == Some(v) by {
      assert [(Str(c.0), v)][1..] == [];
    }
  }

  /** `handle_abroad` of `hdtui.py` keeps a failed lookup's error entry when
      the filter is `all`. */
  lemma AbroadErrorKept(b: Backend, c: Credential)
    requires b.abroadStatus(c.0).Err?
    ensures var r := FlagReport([c], AbroadStep(b), Abroad, "all");
      r.Ok? && Find(r.value, Str(c.0)) == Some(ErrorValue(b.abroadStatus(c.0).msg))
  {
    var v := ErrorValue(b.abroadStatus(c.0).msg);
    assert AbroadStep(b)(c) == [(Str(c.0), v)];
    FlagOfOne(c, AbroadStep(b), v, Abroad, "all");
  }

  // ---------------------------------------------------------------------
  // Supervisors

  /** The list comprehension of `handle_supervisor`, from position `from`
      on: the supervisor name of each item whose `data` (an empty object
      when absent) is an active employee record. Once the item's `data` has
      answered the `objectId` lookup, reading its status and its name
      cannot raise, so only the first two lookups of an item can fail. */
  function Comprehension(xs: seq<Value>, from: nat): (r: Result<seq<Value>>)
    requires from <= |xs|
    ensures r.Ok? ==> |r.value| <= |xs| - from
    ensures r.Ok? <==> forall i | from <= i < |xs| ::
      xs[i].Obj? && FieldOr(xs[i].fields, "data", Obj([])).Obj?
    decreases |xs| - from
  {
    if from == |xs| then Ok([])
    else
      var data :- Get(xs[from], "data", Obj([]));
      var objectId :- Get(data, "objectId", Null);
      var keep := objectId == Str("employeeRecords") && FieldOr(data.fields, "status", Null) == Str("A");
      var rest :- Comprehension(xs, from + 1);
      if keep then Ok([FieldOr(data.fields, "supervisorName", Null)] + rest) else Ok(rest)
  }

  /** The comprehension selects and fails exactly like the loop of
      `hdcli.py`'s `handle_supervisor`. */
  lemma {:induction false} ComprehensionIsCollect(xs: seq<Value>, from: nat)
    requires from <= |xs|
    ensures Comprehension(xs, from) == CollectFrom(xs[from..], "supervisorName")
    decreases |xs| - from
  {
    if from < |xs| {
      ComprehensionIsCollect(xs, from + 1);
      var ys := xs[from..];
      assert ys[0] == xs[from];
      assert ys[1..] == xs[from + 1..];
      var head := RecordField(xs[from], "supervisorName");
      var rest := Comprehension(xs, from + 1);
      assert CollectFrom(ys, "supervisorName") == Concat(head, rest);
      if head.Ok? && rest.Ok? {
        var data := FieldOr(xs[from].fields, "data", Obj([]));
        assert Get(data, "objectId", Null) == Ok(FieldOr(data.fields, "objectId", Null));
        assert [] + rest.value == rest.value;
      }
    }
  }

  /** The supervisor names the comprehension collects from the items of the
      employee-records page. */
  function SupervisorList(page: Value): (r: Result<Value>)
    ensures Subscript(page, "items").Err? ==> r == Err(Subscript(page, "items").msg)
    ensures Subscript(page, "items").Ok? && Iterate(Subscript(page, "items").value).Err? ==>
      r == Err(Iterate(Subscript(page, "items").value).msg)
    ensures Subscript(page, "items").Ok? && Iterate(Subscript(page, "items").value).Ok? ==>
      match CollectFrom(Iterate(Subscript(page, "items").value).value, "supervisorName")
      case Ok(names) => r == Ok(Arr(names))
      case Err(e) => r == Err(e)
  {
    var items :- Subscript(page, "items");
    var xs :- Iterate(items);
    ComprehensionIsCollect(xs, 0);
    assert xs[0..] == xs;
    var names :- Comprehension(xs, 0);
    Ok(Arr(names))
  }

  /** The `handle_supervisor` loop body of `hdtui.py`: one assignment,
      under the alias once the identity is resolved. */
  function SupervisorWrites(b: Backend, user: string): (ws: Writes)
    ensures |ws| == 1
    ensures Identify(b, user).Err? ==> ws == Caught(Str(user), Identify(b, user).msg)
    ensures Identify(b, user).Ok? ==>
      ws == SupervisorRecordWrites(b, Identify(b, user).value.0, Identify(b, user).value.1)
  {
    match Identify(b, user)
    case Err(e) => Caught(Str(user), e)
    case Ok((zid, alias)) => SupervisorRecordWrites(b, zid, alias)
  }

  /** The comprehension's list, or the error it raised, under the
      alias. */
  function SupervisorRecordWrites(b: Backend, zid: Value, alias: Value): (ws: Writes)
    ensures |ws| == 1 && ws[0].0 == alias
    ensures b.getModule("employeeRecords", zid).Err? ==> ws[0].1 == ErrorValue(b.getModule("employeeRecords", zid).msg)
    ensures b.getModule("employeeRecords", zid).Ok? ==>
      var list := SupervisorList(b.getModule("employeeRecords", zid).value);
      && (list.Ok? ==> ws[0].1 == list.value && list.value.Arr?)
      && (list.Err? ==> ws[0].1 == ErrorValue(list.msg))
  {
    Single(alias,
      var page :- b.getModule("employeeRecords", zid);
      SupervisorList(page))
  }

  /** With an `items` key the comprehension and the loop give the same
      list, or fail with the same message. */
  lemma SupervisorListIsCollect(page: Value)
    requires page.Obj? && Lookup(page.fields, "items").Some?
    ensures var c := Collect(Lookup(page.fields, "items").value, "supervisorName");
      SupervisorList(page) == if c.Ok? then Ok(Arr(c.value)) else Err(c.msg)
  {
    var items := Lookup(page.fields, "items").value;
    assert Subscript(page, "items") == Ok(items);
    if Iterate(items).Ok? {
      var xs := Iterate(items).value;
      ComprehensionIsCollect(xs, 0);
      assert xs[0..] == xs;
    }
  }

  /** When the module has an `items` key, `hdtui.py` and `hdcli.py` leave the
      same value under every key: `hdcli.py`'s placeholder `[]` is always
      overwritten. */
  lemma SupervisorAgrees(b: Backend, user: string, k: Value)
    requires Identify(b, user).Ok?
    requires var page := b.getModule("employeeRecords", Identify(b, user).value.0);
      page.Ok? ==> page.value.Obj? && Lookup(page.value.fields, "items").Some?
    ensures LastWrite(SupervisorWrites(b, user), k, None) == LastWrite(EmployeeWrites(b, user, "supervisorName"), k, None)
  {
    var id := Identify(b, user).value;
    RecordsAgree(b, id.0, id.1, k);
  }

  lemma RecordsAgree(b: Backend, zid: Value, alias: Value, k: Value)
    requires var page := b.getModule("employeeRecords", zid);
      page.Ok? ==> page.value.Obj? && Lookup(page.value.fields, "items").Some?
    ensures LastWrite(SupervisorRecordWrites(b, zid, alias), k, None) ==
            LastWrite(RecordWrites(b, zid, alias, "supervisorName"), k, None)
  {
    var ws := SupervisorRecordWrites(b, zid, alias);
    var wc := RecordWrites(b, zid, alias, "supervisorName");
    var fetched := b.getModule("employeeRecords", zid);
    if fetched.Err? {
      assert ws == Caught(alias, fetched.msg);
      assert wc == Caught(alias, fetched.msg);
    } else {
      var page := fetched.value;
      var items := Lookup(page.fields, "items").value;
      assert Get(page, "items", Arr([])) == Ok(items);
      SupervisorListIsCollect(page);
      assert wc == [(alias, Arr([]))] + ws;
      LastWriteOverwritten(alias, Arr([]), ws[0].1, k);
    }
  }

  // ---------------------------------------------------------------------
  // Handlers

  /** `handle_active` of `hdtui.py`: an exception always stores an error
      entry, whatever its text. */
  lemma ActiveNoNotFound(b: Backend, user: string)
    requires b.userStatus(user).Err?
    ensures ActiveStep(b, false, false)((user, None)) == Caught(Str(user), b.userStatus(user).msg)
  {
  }
}

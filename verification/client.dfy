/** The pure logic of `hdtools/client.py`: username normalisation, the
    choice of cookie source, the login-redirect check, the classification of
    search results, identity-record field extraction, the last-password-change
    lookup and the two module renderers. Every HTTP request is an oracle
    field of `Backend`. */
module Client {
  import opened Wrappers
  import opened Strings
  import opened Json

  /** The network, and the helpers the entry scripts call on `client` that
      hdtools/client.py does not define. Each yields the decoded JSON or the
      text of the exception it raised. */
  datatype Backend = Backend(
    // GET .../rest/Search/{username}, decoded without a status check
    search: string -> Result<Value>,
    // get_module(module, vaultzid)
    getModule: (string, Value) -> Result<Value>,
    // GET .../rest/usernamesHDStudent/{vaultzid}, decoded without a status check
    passwordModule: Value -> Result<Value>,
    userStatus: string -> Result<Value>,
    abroadStatus: string -> Result<Value>,
    checkLogin: (string, Option<string>) -> Result<Value>,
    resetPassword: (Value, Value) -> Result<Value>,
    setDescription: (Value, Value) -> Result<Value>)

  // ---------------------------------------------------------------------
  // Cookie and session

  const CookieVar := "HDTOOLS_COOKIE"
  const CookieNameVar := "HDTOOLS_COOKIE_NAME"
  const CookieValueVar := "HDTOOLS_COOKIE_VALUE"
  const MissingCookie := "Missing HDTools cookie in environment or .env"

  /** `get_cookie_header`: the full cookie wins; otherwise a name/value pair
      is joined with `=`; otherwise it raises. */
  function CookieHeader(env: map<string, string>): (r: Result<string>)
    ensures CookieVar in env ==> r == Ok(env[CookieVar])
    ensures CookieVar !in env && CookieNameVar in env && CookieValueVar in env ==>
      r == Ok(env[CookieNameVar] + "=" + env[CookieValueVar])
    ensures r.Err? <==> CookieVar !in env && (CookieNameVar !in env || CookieValueVar !in env)
    ensures r.Err? ==> r.msg == MissingCookie
  {
    if CookieVar in env then Ok(env[CookieVar])
    else if CookieNameVar in env && CookieValueVar in env then
      Ok(env[CookieNameVar] + "=" + env[CookieValueVar])
    else Err(MissingCookie)
  }

  /** Once the full cookie is set, the split name/value variables cannot
      change the header. */
  lemma CookiePrecedence(env: map<string, string>, name: string, value: string)
    requires CookieVar in env
    ensures CookieHeader(env[CookieNameVar := name][CookieValueVar := value]) == CookieHeader(env)
  {
  }

  const IdpHost := "idp.app.clemson.edu"
  const ShibMarker := "shib"

  /** The final URL of the probe points at the login service. */
  predicate IsLoginRedirect(url: string) {
    var u := Lower(url);
    Contains(u, IdpHost) || Contains(u, ShibMarker)
  }

  /** `test_cookie`: `fetch` maps the cookie header to the final URL of the
      probe after redirects, or to the text of what the request raised. The
      session is good exactly when a cookie is configured, the request
      succeeds, and it did not end on the login service. */
  function TestCookie(env: map<string, string>, fetch: string -> Result<string>): (ok: bool)
    ensures CookieHeader(env).Err? ==> !ok
    ensures ok <==> CookieHeader(env).Ok? && fetch(CookieHeader(env).value).Ok?
                    && !IsLoginRedirect(fetch(CookieHeader(env).value).value)
  {
    match CookieHeader(env)
    case Err(_) => false
    case Ok(cookie) =>
      match fetch(cookie)
      case Err(_) => false
      case Ok(url) => !IsLoginRedirect(url)
  }

  /** A probe that lands on the identity provider or a Shibboleth URL fails
      the session check however the URL is capitalised. */
  lemma {:induction false} LoginRedirectFails(env: map<string, string>, fetch: string -> Result<string>, word: string, i: int)
    requires CookieHeader(env).Ok? && fetch(CookieHeader(env).value).Ok?
    requires OccursAt(fetch(CookieHeader(env).value).value, word, i)
    requires Lower(word) == IdpHost || Lower(word) == ShibMarker
    ensures !TestCookie(env, fetch)
  {
    LowerKeepsOccurrence(fetch(CookieHeader(env).value).value, word, i);
  }

  // ---------------------------------------------------------------------
  // Usernames

  const CampusSuffix := "@clemson.edu"
  const GmailSuffix := "@g.clemson.edu"

  /** Dropping one copy of `a` and then one of `b` cuts off one of the four
      tails "", `a`, `b`, `b + a` from the end; `a` is cut exactly when it
      was there, something is cut exactly when either suffix was, and `b`
      is cut exactly when it ends what is left after `a`. */
  lemma {:induction false} RemoveTwoSuffixes(t: string, a: string, b: string)
    requires |a| > 0 && |b| > 0
    ensures var r := RemoveSuffix(RemoveSuffix(t, a), b);
      && |r| <= |t| && r == t[..|r|]
      && (EndsWith(t, a) ==> t[|r|..] == a || t[|r|..] == b + a)
      && (!EndsWith(t, a) ==> t[|r|..] == [] || t[|r|..] == b)
      && (EndsWith(t, a) || EndsWith(t, b) <==> |r| < |t|)
      && (EndsWith(t, a) ==> (t[|r|..] == b + a <==> EndsWith(t[..|t| - |a|], b)))
      && (!EndsWith(t, a) ==> (t[|r|..] == b <==> EndsWith(t, b)))
  {
    var u := RemoveSuffix(t, a);
    var r := RemoveSuffix(u, b);
    assert u == t[..|u|];
    assert r == u[..|r|];
    assert t[|r|..] == u[|r|..] + t[|u|..];
    if EndsWith(t, a) {
      assert u + a == t;
      assert u == t[..|t| - |a|];
    }
  }

  /** `parse_username`: trim, then drop one trailing `@clemson.edu`, then
      one trailing `@g.clemson.edu`. The result is a prefix of the trimmed
      input; what was cut off is one of the four possible tails; the campus
      suffix is cut exactly when present, some suffix is cut exactly when
      the trimmed input carries one, and the Gmail suffix is cut exactly
      when it ends what the campus cut left. */
  function ParseUsername(username: string): (r: string)
    ensures var t := Strip(username);
      && |r| <= |t| && r == t[..|r|]
      && (EndsWith(t, CampusSuffix) ==> t[|r|..] == CampusSuffix || t[|r|..] == GmailSuffix + CampusSuffix)
      && (!EndsWith(t, CampusSuffix) ==> t[|r|..] == [] || t[|r|..] == GmailSuffix)
      && (EndsWith(t, CampusSuffix) || EndsWith(t, GmailSuffix) <==> |r| < |t|)
      && (EndsWith(t, CampusSuffix) ==>
            (t[|r|..] == GmailSuffix + CampusSuffix <==> EndsWith(t[..|t| - |CampusSuffix|], GmailSuffix)))
      && (!EndsWith(t, CampusSuffix) ==> (t[|r|..] == GmailSuffix <==> EndsWith(t, GmailSuffix)))
  {
    RemoveTwoSuffixes(Strip(username), CampusSuffix, GmailSuffix);
    RemoveSuffix(RemoveSuffix(Strip(username), CampusSuffix), GmailSuffix)
  }

  /** `parse_username` leaves a string unchanged exactly when it is already
      trimmed and carries neither recognised suffix. */
  lemma {:induction false} ParseUsernameFixpoint(s: string)
    ensures ParseUsername(s) == s <==>
      Strip(s) == s && !EndsWith(s, CampusSuffix) && !EndsWith(s, GmailSuffix)
  {
    var t := Strip(s);
    var r := ParseUsername(s);
    if r == s {
      assert |t| == |s|;
      assert t == s;
    }
  }

  /** Normalising twice gives the same as once exactly when the first
      result neither ends in whitespace nor in a recognised suffix. */
  lemma {:induction false} ParseUsernameIdempotence(u: string)
    ensures var r := ParseUsername(u);
      ParseUsername(r) == r <==>
        (|r| == 0 || !IsSpace(r[|r| - 1])) && !EndsWith(r, CampusSuffix) && !EndsWith(r, GmailSuffix)
  {
    var t := Strip(u);
    var r := ParseUsername(u);
    ParseUsernameFixpoint(r);
    if |r| > 0 {
      assert r[0] == t[0];
    }
    if |r| == 0 || !IsSpace(r[|r| - 1]) {
      StripOfTrimmed(r);
    }
  }

  /** No string ending in the campus suffix ends in the Gmail one. */
  lemma CampusIsNotGmail(y: string)
    ensures !EndsWith(y + CampusSuffix, GmailSuffix)
  {
    var u := y + CampusSuffix;
    if |GmailSuffix| <= |u| {
      assert u[|u| - |GmailSuffix| + 2] == CampusSuffix[0] != GmailSuffix[2];
    }
  }

  /** No string ending in a space ends in the Gmail suffix. */
  lemma SpaceIsNotGmail(y: string)
    ensures !EndsWith(y + " ", GmailSuffix)
  {
    var u := y + " ";
    if |GmailSuffix| <= |u| {
      assert u[|u| - 1] == ' ' != GmailSuffix[|GmailSuffix| - 1];
    }
  }

  /** A doubled campus suffix loses only one copy per pass, so normalising
      is not idempotent on it. */
  lemma {:induction false} DoubledSuffixSurvives(x: string)
    requires |x| > 0 && !IsSpace(x[0])
    ensures ParseUsername(x + CampusSuffix + CampusSuffix) == x + CampusSuffix
    ensures ParseUsername(ParseUsername(x + CampusSuffix + CampusSuffix)) != x + CampusSuffix
  {
    var once := x + CampusSuffix;
    var twice := once + CampusSuffix;
    assert twice[0] == x[0] && twice[|twice| - 1] == 'u';
    assert !IsSpace(twice[0]) && !IsSpace(twice[|twice| - 1]);
    StripOfTrimmed(twice);
    SuffixAppended(once, CampusSuffix);
    CampusIsNotGmail(x);
    assert RemoveSuffix(once, GmailSuffix) == once;
    assert ParseUsername(twice) == RemoveSuffix(RemoveSuffix(twice, CampusSuffix), GmailSuffix);
    ParseUsernameFixpoint(once);
  }

  /** Whitespace before the suffix is exposed only after the suffix is cut,
      so the result still ends in a space and a second pass trims it. */
  lemma {:induction false} InnerSpaceSurvives(x: string)
    requires |x| > 0 && !IsSpace(x[0])
    ensures ParseUsername(x + " " + CampusSuffix) == x + " "
    ensures ParseUsername(ParseUsername(x + " " + CampusSuffix)) != x + " "
  {
    var u := x + " " + CampusSuffix;
    assert u[0] == x[0] && u[|u| - 1] == 'u';
    assert !IsSpace(u[0]) && !IsSpace(u[|u| - 1]);
    StripOfTrimmed(u);
    var v := x + " ";
    assert u == v + CampusSuffix;
    SuffixAppended(v, CampusSuffix);
    SpaceIsNotGmail(x);
    assert RemoveSuffix(v, GmailSuffix) == v;
    assert ParseUsername(u) == RemoveSuffix(RemoveSuffix(u, CampusSuffix), GmailSuffix);
    assert v[|v| - 1] == ' ';
    StripFixpoint(v);
    ParseUsernameFixpoint(v);
  }

  // ---------------------------------------------------------------------
  // Identity records

  /** The message `get_user_data` raises with. */
  function UnableToGet(user: string, why: string): string {
    "Unable to get user " + ParseUsername(user) + ": " + why
  }

  /** `get_user_data`: the search payload must be a non-empty list, whose
      first element is the record. The `ErrorMessage` test in the source
      looks at the response object instead of the payload and never fires. */
  function GetUserData(b: Backend, user: string): (r: Result<Value>)
    ensures var q := b.search(ParseUsername(user));
      && (q.Err? ==> r == q)
      && (q.Ok? && !q.value.Arr? ==> r == Err(UnableToGet(user, "unknown data returned")))
      && (q.Ok? && q.value == Arr([]) ==> r == Err(UnableToGet(user, "no users returned")))
      && (q.Ok? && q.value.Arr? && |q.value.items| > 0 ==> r == Ok(q.value.items[0]))
  {
    var data :- b.search(ParseUsername(user));
    if !data.Arr? then Err(UnableToGet(user, "unknown data returned"))
    else if |data.items| == 0 then Err(UnableToGet(user, "no users returned"))
    else Ok(data.items[0])
  }

  /** A backend error envelope is reported as an unknown payload. */
  lemma ErrorEnvelopeIsUnknownData(b: Backend, user: string, fields: seq<(string, Value)>)
    requires b.search(ParseUsername(user)) == Ok(Obj(fields))
    requires Lookup(fields, "ErrorMessage").Some?
    ensures GetUserData(b, user) == Err(UnableToGet(user, "unknown data returned"))
  {
  }

  const NoZid := "Data does not contain Vaultzid!"
  const NoPrimary := "Data does not contain primary username!"

  /** `extract_id_and_username`: the record id `zid` and the first entry of
      `primaryUserName`. A missing or null `zid` and a null alias list are
      reported; a missing alias list defaults to `[]` and then fails on `[0]`
      just like an empty one. */
  function ExtractIdAndUsername(user: Value): (r: Result<(Value, Value)>)
    ensures !user.Obj? ==> r == Err(NoAttribute(user, "get"))
    ensures user.Obj? ==> var zid := Lookup(user.fields, "zid");
      && (zid.None? || zid == Some(Null) ==> r == Err(NoZid))
      && (zid.Some? && zid != Some(Null) ==>
            var names := Lookup(user.fields, "primaryUserName").GetOr(Arr([]));
            && (names == Null ==> r == Err(NoPrimary))
            && (names != Null && Index0(names).Err? ==> r == Err(Index0(names).msg))
            && (names != Null && Index0(names).Ok? ==> r == Ok((zid.value, Index0(names).value))))
  {
    if !user.Obj? then Err(NoAttribute(user, "get"))
    else
      var zid := Lookup(user.fields, "zid").GetOr(Null);
      if zid == Null then Err(NoZid)
      else
        var names := Lookup(user.fields, "primaryUserName").GetOr(Arr([]));
        if names == Null then Err(NoPrimary)
        else
          var alias :- Index0(names);
          Ok((zid, alias))
  }

  /** A record with a `zid` and a non-empty alias list yields the id and
      the first alias; without the alias list it fails exactly as with an
      empty one. */
  lemma ExtractIdAndUsernameCases(fields: seq<(string, Value)>, zid: Value, alias: Value, more: seq<Value>)
    requires Lookup(fields, "zid") == Some(zid) && zid != Null
    ensures Lookup(fields, "primaryUserName") == Some(Arr([alias] + more)) ==>
      ExtractIdAndUsername(Obj(fields)) == Ok((zid, alias))
    ensures Lookup(fields, "primaryUserName") == None ==>
      ExtractIdAndUsername(Obj(fields)) == Err("list index out of range")
    ensures Lookup(fields, "primaryUserName") == Some(Arr([])) ==>
      ExtractIdAndUsername(Obj(fields)) == Err("list index out of range")
  {
  }

  // ---------------------------------------------------------------------
  // Last password change

  /** Lower-cases a string value; any other value has no `lower`. */
  function PyLower(v: Value): Result<string> {
    if v.Str? then Ok(Lower(v.s)) else Err(NoAttribute(v, "lower"))
  }

  /** The item's `data.label` is a string. */
  predicate HasLabel(item: Value) {
    && Subscript(item, "data").Ok?
    && Subscript(Subscript(item, "data").value, "label").Ok?
    && Subscript(Subscript(item, "data").value, "label").value.Str?
  }

  /** The item's `data.label` equals `name` ignoring case. */
  predicate LabelMatches(item: Value, name: string) {
    HasLabel(item) && Lower(Subscript(Subscript(item, "data").value, "label").value.s) == Lower(name)
  }

  /** Whether an item's data label equals the username, ignoring letter
      case; subscripting or lower-casing may fail. */
  function LabelTest(item: Value, username: Value): (r: Result<bool>)
    ensures r.Ok? ==> username.Str? && HasLabel(item) && (r.value <==> LabelMatches(item, username.s))
    ensures username.Str? && HasLabel(item) ==> r.Ok?
  {
    var d :- Subscript(item, "data");
    var title :- Subscript(d, "label");
    var l :- PyLower(title);
    var n :- PyLower(username);
    Ok(l == n)
  }

  /** The generator inside `next(...)` of `get_last_password_change`: the
      position of the first item whose label matches the username ignoring
      case, evaluated lazily item by item. */
  function FindLabel(items: seq<Value>, username: Value, from: nat): (r: Result<Option<nat>>)
    requires from <= |items|
    ensures r.Ok? && r.value.Some? ==>
      && username.Str? && from <= r.value.value < |items|
      && LabelMatches(items[r.value.value], username.s)
      && forall j | from <= j < r.value.value :: !LabelMatches(items[j], username.s)
    ensures r == Ok(None) && username.Str? ==> forall j | from <= j < |items| :: !LabelMatches(items[j], username.s)
    ensures username.Str? && (forall j | from <= j < |items| :: HasLabel(items[j])) ==> r.Ok?
    decreases |items| - from
  {
    if from == |items| then Ok(None)
    else match LabelTest(items[from], username)
      case Err(e) => Err(e)
      case Ok(hit) => if hit then Ok(Some(from)) else FindLabel(items, username, from + 1)
  }

  /** The items of a response page, as a list to iterate over. */
  function ItemsOf(page: Value): Result<seq<Value>> {
    var items :- Subscript(page, "items");
    Iterate(items)
  }

  /** The part of `get_last_password_change` after the fetch: the
      `passwordChangedTime` of the first item labelled with the username
      ignoring case; without a match, `None['data']` raises. */
  function PasswordChangeTime(page: Value, username: Value): (r: Result<Value>)
    ensures r.Ok? ==>
      && ItemsOf(page).Ok? && username.Str?
      && exists i | 0 <= i < |ItemsOf(page).value| ::
           && LabelMatches(ItemsOf(page).value[i], username.s)
           && (forall j | 0 <= j < i :: !LabelMatches(ItemsOf(page).value[j], username.s))
           && Subscript(Subscript(ItemsOf(page).value[i], "data").value, "passwordChangedTime") == r
    ensures ItemsOf(page).Ok? && username.Str?
            && (forall j | 0 <= j < |ItemsOf(page).value| :: HasLabel(ItemsOf(page).value[j]))
            && (forall j | 0 <= j < |ItemsOf(page).value| :: !LabelMatches(ItemsOf(page).value[j], username.s))
            ==> r == Err("'NoneType' object is not subscriptable")
  {
    var items :- ItemsOf(page);
    var found :- FindLabel(items, username, 0);
    match found
    case None => Err("'NoneType' object is not subscriptable")
    case Some(i) => Subscript(Subscript(items[i], "data").value, "passwordChangedTime")
  }

  /** The search of `FindLabel` stops at the first matching item when every
      item before it carries a label that does not match. */
  lemma {:induction false} FindLabelFirst(items: seq<Value>, username: Value, from: nat, i: nat)
    requires from <= i < |items| && username.Str?
    requires forall j | from <= j < i :: HasLabel(items[j]) && !LabelMatches(items[j], username.s)
    requires LabelMatches(items[i], username.s)
    ensures FindLabel(items, username, from) == Ok(Some(i))
    decreases i - from
  {
    if from < i {
      FindLabelFirst(items, username, from + 1, i);
    }
  }

  /** The converse of `PasswordChangeTime`'s contract: when item `i` is the
      first labelled with the username and every earlier item has a label,
      the answer is item `i`'s `passwordChangedTime`. */
  lemma PasswordChangeTimeFirstMatch(page: Value, username: Value, i: nat)
    requires ItemsOf(page).Ok? && username.Str? && i < |ItemsOf(page).value|
    requires forall j | 0 <= j < i :: HasLabel(ItemsOf(page).value[j]) && !LabelMatches(ItemsOf(page).value[j], username.s)
    requires LabelMatches(ItemsOf(page).value[i], username.s)
    ensures PasswordChangeTime(page, username) ==
      Subscript(Subscript(ItemsOf(page).value[i], "data").value, "passwordChangedTime")
  {
    FindLabelFirst(ItemsOf(page).value, username, 0, i);
  }

  /** `get_last_password_change`: look the user up, take its id and primary
      alias, fetch the password module and pick the matching item. */
  function GetLastPasswordChange(b: Backend, user: string): (r: Result<Value>)
    ensures GetUserData(b, user).Err? ==> r == GetUserData(b, user)
    ensures GetUserData(b, user).Ok? && ExtractIdAndUsername(GetUserData(b, user).value).Err? ==>
      r == Err(ExtractIdAndUsername(GetUserData(b, user).value).msg)
    ensures GetUserData(b, user).Ok? && ExtractIdAndUsername(GetUserData(b, user).value).Ok? ==>
      var ids := ExtractIdAndUsername(GetUserData(b, user).value).value;
      && (ids.1 == Null ==> r == Err("Username None not in data"))
      && (ids.1 != Null && b.passwordModule(ids.0).Err? ==> r == Err(b.passwordModule(ids.0).msg))
      && (ids.1 != Null && b.passwordModule(ids.0).Ok? ==> r == PasswordChangeTime(b.passwordModule(ids.0).value, ids.1))
    ensures r.Ok? ==>
      var ids := ExtractIdAndUsername(GetUserData(b, user).value).value;
      && ids.1 != Null
      && b.passwordModule(ids.0).Ok?
      && r == PasswordChangeTime(b.passwordModule(ids.0).value, ids.1)
  {
    var data :- GetUserData(b, user);
    var ids :- ExtractIdAndUsername(data);
    if ids.1 == Null then Err("Username None not in data")
    else
      var page :- b.passwordModule(ids.0);
      PasswordChangeTime(page, ids.1)
  }

  // ---------------------------------------------------------------------
  // Module renderers

  /** A dict lookup with a default, where `key` came from the field schema and may
      be any JSON value. Objects decoded from JSON have string keys only. */
  function GetByValue(data: Value, key: Value, default: Value): (r: Result<Value>)
    ensures data.Obj? && key.Str? ==> r == Ok(FieldOr(data.fields, key.s, default))
    ensures r.Err? <==> !data.Obj? || key.Arr? || key.Obj?
  {
    if !data.Obj? then Err(NoAttribute(data, "get"))
    else if key.Arr? || key.Obj? then Err("unhashable type: '" + TypeName(key) + "'")
    else if key.Str? then Ok(FieldOr(data.fields, key.s, default))
    else Ok(default)
  }

  /** The line one schema field contributes: `label: value` when the value
      is truthy, the label defaulting to the field id. A field without an id
      looks up `None`, finds nothing and contributes no line. */
  function FieldLine(field: Value, data: Value): (r: Result<Option<string>>)
    ensures !field.Obj? ==> r == Err(NoAttribute(field, "get"))
    ensures field.Obj? ==>
      (r.Err? <==> !data.Obj? || FieldOr(field.fields, "id", Null).Arr? || FieldOr(field.fields, "id", Null).Obj?)
    ensures field.Obj? && data.Obj? && Lookup(field.fields, "id").None? ==> r == Ok(None)
    ensures field.Obj? && data.Obj? && Lookup(field.fields, "id").Some? && Lookup(field.fields, "id").value.Str? ==>
      && r.Ok?
      && (r.value.Some? <==> Truthy(FieldOr(data.fields, Lookup(field.fields, "id").value.s, Str(""))))
      && (r.value.Some? && Lookup(field.fields, "label").None? ==>
            r.value.value == Lookup(field.fields, "id").value.s + ": "
                             + PyStr(FieldOr(data.fields, Lookup(field.fields, "id").value.s, Str(""))))
      && (r.value.Some? && Lookup(field.fields, "label").Some? ==>
            r.value.value == PyStr(Lookup(field.fields, "label").value) + ": "
                             + PyStr(FieldOr(data.fields, Lookup(field.fields, "id").value.s, Str(""))))
  {
    if !field.Obj? then Err(NoAttribute(field, "get"))
    else
      var key := FieldOr(field.fields, "id", Null);
      var title := FieldOr(field.fields, "label", key);
      var value :- GetByValue(data, key, Str(""));
      Ok(if Truthy(value) then Some(PyStr(title) + ": " + PyStr(value)) else None)
  }

  /** The line of one field as a list of at most one line. */
  function FieldOutput(field: Value, data: Value): (r: Result<seq<string>>)
    ensures r.Ok? <==> FieldLine(field, data).Ok?
    ensures r.Err? ==> r.msg == FieldLine(field, data).msg
    ensures r.Ok? ==> r.value == FieldLine(field, data).value.ToSeq()
  {
    match FieldLine(field, data)
    case Err(e) => Err(e)
    case Ok(line) => Ok(line.ToSeq())
  }

  /** The lines of one item's fields, in schema order; the first field that
      raises aborts the whole rendering. */
  function FieldLines(fields: seq<Value>, data: Value): (r: Result<seq<string>>)
    ensures r.Ok? <==> forall k | 0 <= k < |fields| :: FieldLine(fields[k], data).Ok?
    ensures r.Ok? ==> |r.value| <= |fields|
    ensures r.Ok? && (forall k | 0 <= k < |fields| :: FieldLine(fields[k], data).value.None?) ==> r.value == []
    ensures |fields| == 1 ==> r == FieldOutput(fields[0], data)
  {
    if |fields| == 0 then Ok([])
    else
      var rest := FieldLines(fields[1..], data);
      assert forall k | 1 <= k < |fields| :: fields[k] == fields[1..][k - 1];
      assert |fields| == 1 && FieldOutput(fields[0], data).Ok? ==>
        rest == Ok([]) && FieldOutput(fields[0], data).value + [] == FieldOutput(fields[0], data).value;
      Concat(FieldOutput(fields[0], data), rest)
  }

  /** Rendering a schema split in two renders the first part, then the
      second; together with the one-field case this fixes `FieldLines` on
      every schema. */
  lemma {:induction false} FieldLinesAppend(a: seq<Value>, b: seq<Value>, data: Value)
    ensures FieldLines(a + b, data) == Concat(FieldLines(a, data), FieldLines(b, data))
  {
    if |a| == 0 {
      assert a + b == b;
      assert FieldLines(b, data).Ok? ==> [] + FieldLines(b, data).value == FieldLines(b, data).value;
    } else {
      assert (a + b)[0] == a[0];
      assert (a + b)[1..] == a[1..] + b;
      FieldLinesAppend(a[1..], b, data);
      ConcatAssoc(FieldOutput(a[0], data), FieldLines(a[1..], data), FieldLines(b, data));
    }
  }

  /** The lines of one item: its `data` rendered through the fields of its
      `properties`. A missing `data` or `properties` stands for an empty
      dict, and missing `fields` for an empty list. */
  function ItemLines(item: Value): (r: Result<seq<string>>)
    ensures !item.Obj? ==> r == Err(NoAttribute(item, "get"))
    ensures item.Obj? ==>
      var props := FieldOr(item.fields, "properties", Obj([]));
      && (!props.Obj? ==> r == Err(NoAttribute(props, "get")))
      && (props.Obj? && FieldOr(props.fields, "fields", Arr([])).Arr? ==>
            r == FieldLines(FieldOr(props.fields, "fields", Arr([])).items, FieldOr(item.fields, "data", Obj([]))))
    ensures item.Obj? && Lookup(item.fields, "properties").None? ==> r == Ok([])
  {
    if !item.Obj? then Err(NoAttribute(item, "get"))
    else
      var data := FieldOr(item.fields, "data", Obj([]));
      var props := FieldOr(item.fields, "properties", Obj([]));
      var fields :- Get(props, "fields", Arr([]));
      var fs :- Iterate(fields);
      FieldLines(fs, data)
  }

  /** The lines of all items, item after item. */
  function ModuleLines(items: seq<Value>): (r: Result<seq<string>>)
    ensures r.Ok? <==> forall k | 0 <= k < |items| :: ItemLines(items[k]).Ok?
    ensures |items| == 1 ==> r == ItemLines(items[0])
  {
    if |items| == 0 then Ok([])
    else
      var rest := ModuleLines(items[1..]);
      assert forall k | 1 <= k < |items| :: items[k] == items[1..][k - 1];
      assert |items| == 1 && ItemLines(items[0]).Ok? ==>
        rest == Ok([]) && ItemLines(items[0]).value + [] == ItemLines(items[0]).value;
      Concat(ItemLines(items[0]), rest)
  }

  /** Rendering a list of items split in two renders the first part, then
      the second; with the one-item case this fixes `ModuleLines`. */
  lemma {:induction false} ModuleLinesAppend(a: seq<Value>, b: seq<Value>)
    ensures ModuleLines(a + b) == Concat(ModuleLines(a), ModuleLines(b))
  {
    if |a| == 0 {
      assert a + b == b;
      assert ModuleLines(b).Ok? ==> [] + ModuleLines(b).value == ModuleLines(b).value;
    } else {
      assert (a + b)[0] == a[0];
      assert (a + b)[1..] == a[1..] + b;
      ModuleLinesAppend(a[1..], b);
      ConcatAssoc(ItemLines(a[0]), ModuleLines(a[1..]), ModuleLines(b));
    }
  }

  const NoData := "No data found."

  /** `format_module`: "No data found." when `items` is missing or empty;
      otherwise the rendered lines joined by newlines; anything raised
      becomes a "Failed to format module" message. */
  function FormatModule(page: Value): (r: string)
    ensures !page.Obj? ==> r == "Failed to format module: " + NoAttribute(page, "get")
    ensures page.Obj? && !Truthy(FieldOr(page.fields, "items", Arr([]))) ==> r == NoData
    ensures page.Obj? && FieldOr(page.fields, "items", Arr([])).Arr? && ModuleLines(FieldOr(page.fields, "items", Arr([])).items).Err? ==>
      r == "Failed to format module: " + ModuleLines(FieldOr(page.fields, "items", Arr([])).items).msg
    ensures page.Obj? && FieldOr(page.fields, "items", Arr([])) != Arr([]) && FieldOr(page.fields, "items", Arr([])).Arr?
            && ModuleLines(FieldOr(page.fields, "items", Arr([])).items).Ok? ==>
      r == Join(ModuleLines(FieldOr(page.fields, "items", Arr([])).items).value, "\n")
  {
    if !page.Obj? then "Failed to format module: " + NoAttribute(page, "get")
    else
      var items := FieldOr(page.fields, "items", Arr([]));
      if !Truthy(items) then NoData
      else match Iterate(items)
        case Err(e) => "Failed to format module: " + e
        case Ok(xs) =>
          match ModuleLines(xs)
          case Err(e) => "Failed to format module: " + e
          case Ok(lines) => Join(lines, "\n")
  }

  /** The page of a single item whose schema has one field `key` without a
      label. */
  function OneFieldPage(key: string, data: seq<(string, Value)>): Value {
    var field := Obj([("id", Str(key))]);
    var item := Obj([("data", Obj(data)), ("properties", Obj([("fields", Arr([field]))]))]);
    Obj([("items", Arr([item]))])
  }

  /** A field without a label is shown under its id; a field whose value is
      falsy is not shown at all, so an item whose values are all empty
      renders as the empty text rather than "No data found.". */
  lemma {:induction false} FormatModuleFieldRules(key: string, v: Value, data: seq<(string, Value)>)
    requires Lookup(data, key) == Some(v)
    ensures FormatModule(OneFieldPage(key, data)) == if Truthy(v) then key + ": " + PyStr(v) else ""
  {
    var field := Obj([("id", Str(key))]);
    var item := Obj([("data", Obj(data)), ("properties", Obj([("fields", Arr([field]))]))]);
    var page := OneFieldPage(key, data);
    var lines := OneFieldLines(key, v, data);
    assert ModuleLines([item]) == Ok(lines);
    assert FieldOr(page.fields, "items", Arr([])) == Arr([item]);
    assert Join(lines, "\n") == if Truthy(v) then key + ": " + PyStr(v) else "";
  }

  /** The single item of `OneFieldPage` renders as its one field's line, or
      as nothing when the value is falsy. */
  lemma OneFieldLines(key: string, v: Value, data: seq<(string, Value)>) returns (lines: seq<string>)
    requires Lookup(data, key) == Some(v)
    ensures lines == if Truthy(v) then [key + ": " + PyStr(v)] else []
    ensures ItemLines(Obj([("data", Obj(data)), ("properties", Obj([("fields", Arr([Obj([("id", Str(key))])]))]))])) == Ok(lines)
  {
    var field := Obj([("id", Str(key))]);
    var props := Obj([("fields", Arr([field]))]);
    var item := Obj([("data", Obj(data)), ("properties", props)]);
    lines := FieldLinesOfOne(key, v, data);
    assert Get(props, "fields", Arr([])) == Ok(Arr([field]));
    assert item.fields[0].0 == "data" && item.fields[1..] == [("properties", props)];
    assert FieldOr(item.fields, "data", Obj([])) == Obj(data);
    assert Lookup(item.fields[1..], "properties") == Some(props);
    assert FieldOr(item.fields, "properties", Obj([])) == props;
    assert Iterate(Arr([field])) == Ok([field]);
  }

  lemma FieldLinesOfOne(key: string, v: Value, data: seq<(string, Value)>) returns (lines: seq<string>)
    requires Lookup(data, key) == Some(v)
    ensures lines == if Truthy(v) then [key + ": " + PyStr(v)] else []
    ensures FieldLines([Obj([("id", Str(key))])], Obj(data)) == Ok(lines)
  {
    var field := Obj([("id", Str(key))]);
    lines := if Truthy(v) then [key + ": " + PyStr(v)] else [];
    var line := FieldLine(field, Obj(data));
    assert line == Ok(if Truthy(v) then Some(key + ": " + PyStr(v)) else None);
    assert [field][1..] == [];
    assert FieldLines([field][1..], Obj(data)) == Ok([]);
    assert [key + ": " + PyStr(v)] + [] == [key + ": " + PyStr(v)];
  }



  const NoHistory := "No vault history found."
  const HistoryLimit := 10

  /** `data[:10]`. Slicing a dict looks the slice up as a key. */
  function FirstTen(v: Value): (r: Result<seq<Value>>)
    ensures v.Arr? ==> r.Ok? && r.value == v.items[..if |v.items| < HistoryLimit then |v.items| else HistoryLimit]
  {
    match v
    case Arr(xs) => Ok(if |xs| <= HistoryLimit then xs else xs[..HistoryLimit])
    case Str(s) =>
      var t := if |s| <= HistoryLimit then s else s[..HistoryLimit];
      Ok(seq(|t|, i requires 0 <= i < |t| => Str([t[i]])))
    case Obj(_) => Err("slice(None, 10, None)")
    case _ => Err("'" + TypeName(v) + "' object is not subscriptable")
  }

  const Rule := "--------------------"

  /** How a history field is shown: its text when present, "N/A" when
      absent. */
  function Shown(fields: seq<(string, Value)>, key: string): string {
    match Lookup(fields, key)
    case Some(v) => PyStr(v)
    case None => "N/A"
  }

  /** The three lines of one history entry, "N/A" standing in for missing
      fields; the third line is the rule. */
  function HistoryEntry(entry: Value): (r: Result<seq<string>>)
    ensures r.Ok? <==> entry.Obj?
    ensures r.Ok? ==> |r.value| == 3 && r.value[2] == Rule
    ensures r.Ok? ==> r.value[0] == "[" + Shown(entry.fields, "datetime") + "] " + Shown(entry.fields, "operation")
                                    + " " + Shown(entry.fields, "name")
    ensures r.Ok? ==> r.value[1] == "  Reason: " + Shown(entry.fields, "reason")
  {
    if !entry.Obj? then Err(NoAttribute(entry, "get"))
    else
      var na := Str("N/A");
      var time := FieldOr(entry.fields, "datetime", na);
      var op := FieldOr(entry.fields, "operation", na);
      var name := FieldOr(entry.fields, "name", na);
      var reason := FieldOr(entry.fields, "reason", na);
      Ok(["[" + PyStr(time) + "] " + PyStr(op) + " " + PyStr(name), "  Reason: " + PyStr(reason), Rule])
  }

  /** The lines of all entries: entry `k` fills lines `3k` to `3k + 2`, so
      every third line is a rule. */
  function HistoryLines(entries: seq<Value>): (r: Result<seq<string>>)
    ensures r.Ok? <==> forall k | 0 <= k < |entries| :: entries[k].Obj?
    ensures r.Ok? ==> |r.value| == 3 * |entries|
    ensures r.Ok? ==> forall k | 0 <= k < |entries| ::
      HistoryEntry(entries[k]).Ok? && r.value[3 * k .. 3 * k + 3] == HistoryEntry(entries[k]).value
    ensures r.Ok? ==> forall k | 0 <= k < |entries| :: r.value[3 * k + 2] == Rule
  {
    if |entries| == 0 then Ok([])
    else
      var lines :- HistoryEntry(entries[0]);
      var rest :- HistoryLines(entries[1..]);
      HistoryShift(entries, lines, rest);
      Ok(lines + rest)
  }

  lemma {:induction false} HistoryShift(entries: seq<Value>, lines: seq<string>, rest: seq<string>)
    requires |entries| > 0 && HistoryEntry(entries[0]) == Ok(lines)
    requires |rest| == 3 * (|entries| - 1)
    requires forall k | 0 <= k < |entries| - 1 ::
      HistoryEntry(entries[1..][k]).Ok? && rest[3 * k .. 3 * k + 3] == HistoryEntry(entries[1..][k]).value
    ensures forall k | 0 <= k < |entries| ::
      HistoryEntry(entries[k]).Ok? && (lines + rest)[3 * k .. 3 * k + 3] == HistoryEntry(entries[k]).value
    ensures forall k | 0 <= k < |entries| :: (lines + rest)[3 * k + 2] == Rule
  {
    forall k | 0 <= k < |entries|
      ensures HistoryEntry(entries[k]).Ok? && (lines + rest)[3 * k .. 3 * k + 3] == HistoryEntry(entries[k]).value
      ensures (lines + rest)[3 * k + 2] == Rule
    {
      if k > 0 {
        assert entries[k] == entries[1..][k - 1];
        BlockShift(lines, rest, k);
      } else {
        assert (lines + rest)[..3] == lines;
      }
      assert (lines + rest)[3 * k + 2] == (lines + rest)[3 * k .. 3 * k + 3][2];
    }
  }

  lemma BlockShift(lines: seq<string>, rest: seq<string>, k: nat)
    requires |lines| == 3 && 0 < k && 3 * k + 3 <= |lines| + |rest|
    ensures (lines + rest)[3 * k .. 3 * k + 3] == rest[3 * (k - 1) .. 3 * (k - 1) + 3]
  {
  }

  /** `format_vault_history`: a falsy payload gives "No vault history found.";
      otherwise the first ten entries are rendered; anything raised becomes a
      "Failed to format vault history" message. */
  function FormatVaultHistory(data: Value): (r: string)
    ensures !Truthy(data) ==> r == NoHistory
    ensures data.Obj? && Truthy(data) ==> r == "Failed to format vault history: slice(None, 10, None)"
    ensures Truthy(data) && data.Arr? && HistoryLines(FirstTen(data).value).Ok? ==>
      r == Join(HistoryLines(FirstTen(data).value).value, "\n")
  {
    if !Truthy(data) then NoHistory
    else match FirstTen(data)
      case Err(e) => "Failed to format vault history: " + e
      case Ok(entries) =>
        match HistoryLines(entries)
        case Err(e) => "Failed to format vault history: " + e
        case Ok(lines) => Join(lines, "\n")
  }

  /** A non-empty list of history objects is rendered as exactly three lines
      for each of its first ten entries, however long it is. */
  lemma {:induction false} VaultHistoryShowsAtMostTen(xs: seq<Value>)
    requires |xs| > 0 && forall k | 0 <= k < |xs| :: xs[k].Obj?
    ensures FirstTen(Arr(xs)).Ok?
    ensures var n := if |xs| < HistoryLimit then |xs| else HistoryLimit;
      && HistoryLines(FirstTen(Arr(xs)).value).Ok?
      && |HistoryLines(FirstTen(Arr(xs)).value).value| == 3 * n
      && FormatVaultHistory(Arr(xs)) == Join(HistoryLines(FirstTen(Arr(xs)).value).value, "\n")
  {
    var es := FirstTen(Arr(xs)).value;
    var n := if |xs| < HistoryLimit then |xs| else HistoryLimit;
    assert |es| == n;
    assert forall k | 0 <= k < |es| :: es[k] == xs[k];
    assert forall k | 0 <= k < |es| :: es[k].Obj?;
    assert HistoryLines(es).Ok?;
    assert |HistoryLines(es).value| == 3 * n;
    assert Truthy(Arr(xs));
    assert FormatVaultHistory(Arr(xs)) == Join(HistoryLines(es).value, "\n");
  }

  /** An empty history entry is shown with "N/A" in every slot. */
  lemma VaultHistoryDefaults()
    ensures HistoryEntry(Obj([])) == Ok(["[N/A] N/A N/A", "  Reason: N/A", Rule])
  {
    assert "[" + "N/A" + "] " + "N/A" + " " + "N/A" == "[N/A] N/A N/A";
    assert "  Reason: " + "N/A" == "  Reason: N/A";
  }
}

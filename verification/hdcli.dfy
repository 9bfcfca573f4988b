/** `hdcli.py`: the batch commands of the current entry script. Each handler
    runs a per-identity loop body (module `Batch`) over the loaded
    credentials, turns the results dict into the view it reports, renders
    that with its plain-text formatter, and `handle_output` decides where the
    text goes. */
module Hdcli {
  import opened Wrappers
  import opened Strings
  import opened Json
  import opened OrderedMap
  import opened Client
  import opened Batch

  // ---------------------------------------------------------------------
  // Label views

  /** The label shown for a true flag. */
  function YesLabel(s: Status): string {
    match s
    case Abroad => "Abroad"
    case Active => "Active"
    case Locked => "Locked"
  }

  /** The label shown for a false flag. */
  function NoLabel(s: Status): string {
    match s
    case Abroad => "Local"
    case Active => "Inactive"
    case Locked => "Unlocked"
  }

  function LabelOf(s: Status, b: bool): string {
    if b then YesLabel(s) else NoLabel(s)
  }

  /** The comprehension that relabels the results, as a selection: a bool
      becomes its label, and every other value is dropped. */
  function Label(s: Status): Value -> Option<Value> {
    (v: Value) => if v.Bool? then Some(Str(LabelOf(s, v.b))) else None
  }

  /** The filter on labels, as a selection keeping the value: the yes label
      survives only the yes choice and the no label only the no choice. */
  function MatchLabel(s: Status, target: string): Value -> Option<Value> {
    (v: Value) =>
      if (v == Str(YesLabel(s)) && target == YesTarget(s)) || (v == Str(NoLabel(s)) && target == NoTarget(s))
      then Some(v) else None
  }

  /** The dict a status handler reports: the bool entries as labels, then
      the filter unless it is `all`. */
  function LabelView(d: Dict, s: Status, filter: string): (r: Dict)
    ensures IsSubseq(Keys(r), Keys(d))
    ensures Distinct(d) ==> Distinct(r)
  {
    var labelled := Select(d, Label(s));
    if filter == "all" then labelled
    else
      var r := Select(labelled, MatchLabel(s, Lower(filter)));
      SubseqTrans(Keys(r), Keys(labelled), Keys(d));
      r
  }

  /** What the view shows for a stored value: only a bool shows, as its
      label, and only when the filter is `all` or names its value. An error
      entry or "Not Found" never shows, even under `all`. */
  function Shown(o: Option<Value>, s: Status, filter: string): Option<Value> {
    match o
    case Some(Bool(b)) =>
      if filter == "all" || Lower(filter) == TargetOf(s, b) then Some(Str(LabelOf(s, b))) else None
    case _ => None
  }

  lemma LabelViewFind(d: Dict, s: Status, filter: string)
    requires Distinct(d)
    ensures forall k :: Find(LabelView(d, s, filter), k) == Shown(Find(d, k), s, filter)
  {
    var labelled := Select(d, Label(s));
    if filter == "all" {
      forall k
        ensures Find(labelled, k) == Shown(Find(d, k), s, filter)
      {
        LabelThenMatch(Find(d, k), s, filter);
      }
    } else {
      var shown := Select(labelled, MatchLabel(s, Lower(filter)));
      assert LabelView(d, s, filter) == shown;
      forall k
        ensures Find(shown, k) == Shown(Find(d, k), s, filter)
      {
        LabelThenMatch(Find(d, k), s, filter);
      }
    }
  }

  /** Labelling a stored value and then matching the label against the
      filter shows what `Shown` says. */
  lemma LabelThenMatch(o: Option<Value>, s: Status, filter: string)
    ensures filter == "all" ==> Then(o, Label(s)) == Shown(o, s, filter)
    ensures filter != "all" ==> Then(Then(o, Label(s)), MatchLabel(s, Lower(filter))) == Shown(o, s, filter)
  {
    assert |YesLabel(s)| != |NoLabel(s)|;
  }

  /** The view of `hdcli.py` against the bool filter of `hdtui.py` and
      `main.py`: under a filter both keep the same entries, `hdcli.py` then
      showing the label; under `all` a stored error stays in the older
      scripts' report and disappears from this one. */
  lemma ShownVersusKept(o: Option<Value>, s: Status, filter: string)
    ensures filter != "all" ==> Shown(o, s, filter) == Then(FlagKept(o, s, filter), Label(s))
    ensures filter == "all" ==> FlagKept(o, s, filter) == o
    ensures filter == "all" ==> (Shown(o, s, filter).Some? <==> o.Some? && o.value.Bool?)
  {
  }

  /** A status handler (`handle_abroad`, `handle_active`, `handle_lockout`):
      the loop over the credentials, then the label view. Every key shows
      what the view makes of the last value stored under it. */
  function StatusReport(creds: seq<Credential>, step: Credential -> Writes, s: Status, filter: string): (r: Result<Dict>)
    ensures r.Err? <==> Run(creds, step).Err?
    ensures r.Ok? ==> Distinct(r.value)
    ensures r.Ok? ==> forall k :: Find(r.value, k) == Shown(LastWrite(AllWrites(creds, step), k, None), s, filter)
  {
    var d :- Run(creds, step);
    RunIsolation(creds, step);
    LabelViewFind(d, s, filter);
    Ok(LabelView(d, s, filter))
  }

  /** The report of a run over one credential whose loop body stores a
      single value under the name. */
  lemma {:induction false} ReportOfOne(c: Credential, step: Credential -> Writes, v: Value, s: Status, filter: string)
    requires step(c) == [(Str(c.0), v)]
    ensures StatusReport([c], step, s, filter).Ok?
    ensures Find(StatusReport([c], step, s, filter).value, Str(c.0)) == Shown(Some(v), s, filter)
  {
    assert AllWrites([c], step) == [(Str(c.0), v)] by {
      assert [c][1..] == [];
    }
    RunIsolation([c], step);
    assert LastWrite([(Str(c.0), v)], Str(c.0), None) == Some(v) by {
      assert [(Str(c.0), v)][1..] == [];
    }
  }

  // ---------------------------------------------------------------------
  // Handlers

  /** `handle_abroad` up to the output: one name is reported "Abroad" or
      "Local" only when the backend answered a bool, and only when the
      filter allows it. */
  lemma AbroadOfOne(b: Backend, c: Credential, filter: string)
    ensures var r := StatusReport([c], AbroadStep(b), Abroad, filter);
      && r.Ok?
      && Find(r.value, Str(c.0)) ==
           match b.abroadStatus(c.0)
           case Ok(Bool(x)) =>
             if filter == "all" || Lower(filter) == TargetOf(Abroad, x) then Some(Str(LabelOf(Abroad, x))) else None
           case _ => None
  {
    var v := match b.abroadStatus(c.0) case Ok(x) => x case Err(e) => ErrorValue(e);
    assert AbroadStep(b)(c) == [(Str(c.0), v)];
    ReportOfOne(c, AbroadStep(b), v, Abroad, filter);
  }

  /** `handle_active` without `--locked` up to the output: a falsy status
      reads "Inactive", the status `True` reads "Active", and anything else
      — a truthy non-bool, an error, "Not Found" — is not reported. */
  lemma ActiveOfOne(b: Backend, c: Credential, filter: string)
    ensures var r := StatusReport([c], ActiveStep(b, false, true), Active, filter);
      && r.Ok?
      && Find(r.value, Str(c.0)) ==
           match b.userStatus(c.0)
           case Ok(v) =>
             if !Truthy(v) then Shown(Some(Bool(false)), Active, filter)
             else if v == Bool(true) then Shown(Some(Bool(true)), Active, filter)
             else None
           case Err(_) => None
  {
    var w := ActiveWrites(b, c.0, false, true);
    assert |w| == 1 && w[0].0 == Str(c.0);
    assert ActiveStep(b, false, true)(c) == [(Str(c.0), w[0].1)];
    ReportOfOne(c, ActiveStep(b, false, true), w[0].1, Active, filter);
  }

  /** `results[username] = "Succeeded" if client.check_login(username,
      password) else "Failed"` */
  function LoginWrites(b: Backend, c: Credential): (ws: Writes)
    ensures |ws| == 1 && ws[0].0 == Str(c.0)
    ensures var q := b.checkLogin(c.0, c.1);
      && (ws[0].1 == Str("Succeeded") <==> q.Ok? && Truthy(q.value))
      && (ws[0].1 == Str("Failed") <==> q.Ok? && !Truthy(q.value))
      && (q.Err? ==> ws[0].1 == ErrorValue(q.msg))
  {
    Single(Str(c.0), b.checkLogin(c.0, c.1).Map((v: Value) => Str(if Truthy(v) then "Succeeded" else "Failed")))
  }

  // ---------------------------------------------------------------------
  // Formatters

  /** The lines of a formatter, one per entry in order; the first entry
      whose line raises aborts the formatter. */
  function RenderLines(d: Dict, line: Entry -> Result<string>, from: nat): (r: Result<seq<string>>)
    requires from <= |d|
    ensures r.Ok? ==> |r.value| == |d| - from && forall i | from <= i < |d| :: line(d[i]) == Ok(r.value[i - from])
    ensures r.Err? ==> exists i | from <= i < |d| :: line(d[i]) == Err(r.msg) && forall j | from <= j < i :: line(d[j]).Ok?
    decreases |d| - from
  {
    if from == |d| then Ok([])
    else
      var first :- line(d[from]);
      var rest :- RenderLines(d, line, from + 1);
      Ok([first] + rest)
  }

  /** The name, a colon and a space, then the value's text. */
  function GenericLine(e: Entry): string {
    PyStr(e.0) + ": " + PyStr(e.1)
  }

  /** `format_generic`: one line per entry, in dict order. When no line
      holds a newline, the text splits back into those lines. */
  function FormatGeneric(d: Dict): (r: string)
    ensures |d| == 0 ==> r == ""
    ensures |d| > 0 && (forall i | 0 <= i < |d| :: '\n' !in GenericLine(d[i])) ==>
      |Split(r, "\n")| == |d| && forall i | 0 <= i < |d| :: Split(r, "\n")[i] == GenericLine(d[i])
  {
    var lines := seq(|d|, i requires 0 <= i < |d| => GenericLine(d[i]));
    if |d| > 0 && (forall i | 0 <= i < |d| :: '\n' !in GenericLine(d[i])) then
      SplitJoin(lines, '\n');
      Join(lines, "\n")
    else Join(lines, "\n")
  }

  /** The position of the first element that is not a string. */
  function FirstNonString(xs: seq<Value>, from: nat): (r: Option<nat>)
    requires from <= |xs|
    ensures r.Some? ==> from <= r.value < |xs| && !xs[r.value].Str?
    ensures r.Some? ==> forall j | from <= j < r.value :: xs[j].Str?
    ensures r.None? <==> forall j | from <= j < |xs| :: xs[j].Str?
    decreases |xs| - from
  {
    if from == |xs| then None
    else if !xs[from].Str? then Some(from)
    else FirstNonString(xs, from + 1)
  }

  /** `";".join(v)`: whatever iterating `v` gives must be strings. */
  function JoinNames(v: Value): (r: Result<string>)
    ensures Iterate(v).Err? ==> r == Err("can only join an iterable")
    ensures v.Arr? && (forall j | 0 <= j < |v.items| :: v.items[j].Str?) ==>
      r == Ok(Join(seq(|v.items|, j requires 0 <= j < |v.items| => v.items[j].s), ";"))
    ensures v.Arr? && FirstNonString(v.items, 0).Some? ==>
      var i := FirstNonString(v.items, 0).value;
      r == Err("sequence item " + NatToString(i) + ": expected str instance, " + TypeName(v.items[i]) + " found")
  {
    match Iterate(v)
    case Err(_) => Err("can only join an iterable")
    case Ok(xs) =>
      match FirstNonString(xs, 0)
      case Some(i) => Err("sequence item " + NatToString(i) + ": expected str instance, " + TypeName(xs[i]) + " found")
      case None => Ok(Join(seq(|xs|, j requires 0 <= j < |xs| => xs[j].s), ";"))
  }

  /** The names joined by semicolons, or the word None when there are none. */
  function NamesText(v: Value): Result<string> {
    if !Truthy(v) then Ok("None") else JoinNames(v)
  }

  /** The name, a colon, then the joined names with no space between. */
  function NameLine(e: Entry): Result<string> {
    var t :- NamesText(e.1);
    Ok(PyStr(e.0) + ":" + t)
  }

  /** The text of a formatter: its lines joined by newlines. It fails
      exactly when some entry's line fails, and when no line holds a
      newline it splits back into one line per entry, in dict order. */
  function FormatLines(d: Dict, line: Entry -> Result<string>): (r: Result<string>)
    ensures r.Ok? <==> forall i | 0 <= i < |d| :: line(d[i]).Ok?
    ensures r.Err? ==> exists i | 0 <= i < |d| :: line(d[i]) == Err(r.msg) && forall j | 0 <= j < i :: line(d[j]).Ok?
    ensures r.Ok? && |d| == 0 ==> r.value == ""
    ensures r.Ok? && |d| > 0 && (forall i | 0 <= i < |d| :: '\n' !in line(d[i]).value) ==>
      |Split(r.value, "\n")| == |d| && forall i | 0 <= i < |d| :: Split(r.value, "\n")[i] == line(d[i]).value
  {
    var lines :- RenderLines(d, line, 0);
    if |d| > 0 && (forall i | 0 <= i < |d| :: '\n' !in line(d[i]).value) then
      assert forall i | 0 <= i < |d| :: lines[i] == line(d[i]).value;
      SplitJoin(lines, '\n');
      Ok(Join(lines, "\n"))
    else Ok(Join(lines, "\n"))
  }

  /** `format_department`, and `format_supervisor`, which is the same code. */
  function FormatNames(d: Dict): (r: Result<string>)
    ensures r.Ok? <==> forall i | 0 <= i < |d| :: NameLine(d[i]).Ok?
    ensures r.Err? ==> exists i | 0 <= i < |d| :: NameLine(d[i]) == Err(r.msg) && forall j | 0 <= j < i :: NameLine(d[j]).Ok?
    ensures r.Ok? && |d| > 0 && (forall i | 0 <= i < |d| :: '\n' !in NameLine(d[i]).value) ==>
      |Split(r.value, "\n")| == |d| && forall i | 0 <= i < |d| :: Split(r.value, "\n")[i] == NameLine(d[i]).value
  {
    FormatLines(d, NameLine)
  }

  /** A collected list of names renders as the names joined by `;`, and an
      empty one as "None". */
  lemma NamesOfStrings(names: seq<string>)
    ensures NamesText(Arr(seq(|names|, i requires 0 <= i < |names| => Str(names[i])))) ==
      Ok(if |names| == 0 then "None" else Join(names, ";"))
  {
    var xs := seq(|names|, i requires 0 <= i < |names| => Str(names[i]));
    if |names| == 0 {
      assert xs == [];
    } else {
      assert xs[0] == Str(names[0]);
      assert forall j | 0 <= j < |xs| :: xs[j].Str?;
      assert seq(|xs|, j requires 0 <= j < |xs| => xs[j].s) == names;
      assert JoinNames(Arr(xs)) == Ok(Join(names, ";"));
    }
  }

  /** A stored error is a dict, which is truthy and iterates over its keys:
      the line shows the word "error" instead of the message. */
  lemma NamesOfError(msg: string)
    ensures NamesText(ErrorValue(msg)) == Ok("error")
  {
    var xs := [Str("error")];
    var fs := ErrorValue(msg).fields;
    assert seq(|fs|, i requires 0 <= i < |fs| => Str(fs[i].0)) == xs;
    assert FirstNonString(xs, 1) == None;
    assert FirstNonString(xs, 0) == None;
    assert seq(|xs|, j requires 0 <= j < |xs| => xs[j].s) == ["error"];
  }

  const ResetOpen := "<br><br><b>"
  const ResetClose := "</b>"

  /** The new password inside a reset message: the text after the last
      `<br><br><b>`, up to the first `</b>` after it. A message without
      either marker is shown whole. */
  function ResetValue(message: string): (r: string)
    ensures !Contains(r, ResetClose)
    ensures !Contains(message, ResetOpen) && !Contains(message, ResetClose) ==> r == message
  {
    var pieces := Split(message, ResetOpen);
    var last := pieces[|pieces| - 1];
    var r := Split(last, ResetClose)[0];
    if !Contains(message, ResetOpen) && !Contains(message, ResetClose) then
      SplitWhole(message, ResetOpen);
      SplitWhole(message, ResetClose);
      r
    else r
  }

  /** Both markers of a reset message have no border, so their occurrences
      never overlap. */
  lemma ResetMarkersBorderFree()
    ensures BorderFree(ResetOpen) && BorderFree(ResetClose)
  {
    forall t | 0 < t < |ResetOpen|
      ensures ResetOpen[t..] != ResetOpen[..|ResetOpen| - t]
    {
      if t == 4 {
        assert ResetOpen[t..][6] != ResetOpen[..|ResetOpen| - t][6];
      } else if t == 8 {
        assert ResetOpen[t..][2] != ResetOpen[..|ResetOpen| - t][2];
      } else {
        assert ResetOpen[t..][0] != ResetOpen[..|ResetOpen| - t][0];
      }
    }
    forall t | 0 < t < |ResetClose|
      ensures ResetClose[t..] != ResetClose[..|ResetClose| - t]
    {
      assert ResetClose[t..][0] != ResetClose[..|ResetClose| - t][0];
    }
  }

  /** The text between the last `<br><br><b>` and the `</b>` after it:
      whatever precedes the last opening marker, as long as no opening
      marker follows it and no closing marker comes before the password's
      end. */
  lemma ResetValueOf(a: string, p: string, z: string)
    requires !Contains(p + ResetClose + z, ResetOpen) && !Contains(p, ResetClose)
    ensures ResetValue(a + ResetOpen + p + ResetClose + z) == p
  {
    ResetMarkersBorderFree();
    var m := p + ResetClose + z;
    assert a + ResetOpen + p + ResetClose + z == a + ResetOpen + m;
    SplitLastPiece(a, ResetOpen, m);
    SplitFirstPiece(p, ResetClose, z);
  }

  /** One line of `format_reset`: the password cut out of a
      `SuccessMessage`, otherwise the stored `error` or "Unknown error
      occurred". */
  function ResetLine(e: Entry): (r: Result<string>)
    ensures e.1.Obj? && Lookup(e.1.fields, "SuccessMessage").Some? ==>
      var message := Lookup(e.1.fields, "SuccessMessage").value;
      && (message.Str? ==> r == Ok(PyStr(e.0) + ": Password reset to '" + ResetValue(message.s) + "'"))
      && (!message.Str? ==> r == Err(NoAttribute(message, "split")))
    ensures e.1.Obj? && Lookup(e.1.fields, "SuccessMessage").None? ==>
      r == Ok(PyStr(e.0) + ": " + PyStr(FieldOr(e.1.fields, "error", Str("Unknown error occurred"))))
  {
    var has :- HasMember(e.1, "SuccessMessage");
    if has then
      var message :- Subscript(e.1, "SuccessMessage");
      if message.Str? then Ok(PyStr(e.0) + ": Password reset to '" + ResetValue(message.s) + "'")
      else Err(NoAttribute(message, "split"))
    else
      var err :- Get(e.1, "error", Str("Unknown error occurred"));
      Ok(PyStr(e.0) + ": " + PyStr(err))
  }

  /** `format_reset` */
  function FormatReset(d: Dict): (r: Result<string>)
    ensures r.Ok? <==> forall i | 0 <= i < |d| :: ResetLine(d[i]).Ok?
    ensures r.Err? ==> exists i | 0 <= i < |d| :: ResetLine(d[i]) == Err(r.msg) && forall j | 0 <= j < i :: ResetLine(d[j]).Ok?
    ensures r.Ok? && |d| > 0 && (forall i | 0 <= i < |d| :: '\n' !in ResetLine(d[i]).value) ==>
      |Split(r.value, "\n")| == |d| && forall i | 0 <= i < |d| :: Split(r.value, "\n")[i] == ResetLine(d[i]).value
  {
    FormatLines(d, ResetLine)
  }

  /** A successful reset shows the new password cut out of the message. */
  lemma ResetLineSuccess(k: Value, a: string, p: string, z: string, description: Value)
    requires !Contains(p + ResetClose + z, ResetOpen) && !Contains(p, ResetClose)
    ensures ResetLine((k, ResetEntry(Str(a + ResetOpen + p + ResetClose + z), description))) ==
      Ok(PyStr(k) + ": Password reset to '" + p + "'")
  {
    ResetValueOf(a, p, z);
  }

  /** A failed identity shows its error text. */
  lemma ResetLineError(k: Value, msg: string)
    ensures ResetLine((k, ErrorValue(msg))) == Ok(PyStr(k) + ": " + msg)
  {
  }

  /** A reset whose backend answer had no `SuccessMessage` stores `None`
      under that key, and the formatter then raises on `None.split`. */
  lemma ResetLineMissingMessage(k: Value, description: Value)
    ensures ResetLine((k, ResetEntry(Null, description))) == Err(NoAttribute(Null, "split"))
  {
  }

  // ---------------------------------------------------------------------
  // Output

  /** The print and output options; a file option is "" when not given. */
  datatype Options = Options(
    printNormal: bool, printJson: bool, printRaw: bool,
    outputNormal: string, outputJson: string, outputAll: string)

  predicate OutputSet(o: Options) {
    o.outputNormal != "" || o.outputJson != "" || o.outputAll != ""
  }

  /** `handle_output`: `text` is the formatter's result and `raw` is
      `str(data)`. The files are chosen first (`output_all` over
      `output_normal` over `output_json`); something is printed when no
      output option is set or a print option other than `print_raw` is. */
  function HandleOutput(o: Options, text: Result<string>, raw: string): (r: Result<Output>)
    ensures r.Ok? ==> (r.value.files == NoFiles <==> !OutputSet(o))
    ensures r.Ok? ==> (r.value.stdout == Silent <==> OutputSet(o) && !o.printNormal && !o.printJson)
    ensures text.Ok? ==> r.Ok?
    ensures r.Err? ==> r == Err(text.msg)
  {
    var files :-
      if o.outputAll != "" then
        var t :- text;
        Ok(TextAndJson(o.outputAll + ".txt", t, o.outputAll + ".json"))
      else if o.outputNormal != "" then
        var t :- text;
        Ok(TextFile(o.outputNormal, t))
      else if o.outputJson != "" then Ok(JsonFile(o.outputJson))
      else Ok(NoFiles);
    var out :-
      if OutputSet(o) && !o.printNormal && !o.printJson then Ok(Silent)
      else if o.printNormal then text.Map((t: string) => PrintText(t))
      else if o.printJson then Ok(PrintJson)
      else if o.printRaw then Ok(PrintText(raw))
      else text.Map((t: string) => PrintText(t));
    Ok(Output(files, out))
  }

  /** The options argparse accepts: at most one per group. */
  predicate Exclusive(o: Options) {
    && (if o.printNormal then 1 else 0) + (if o.printJson then 1 else 0) + (if o.printRaw then 1 else 0) <= 1
    && (if o.outputNormal != "" then 1 else 0) + (if o.outputJson != "" then 1 else 0)
       + (if o.outputAll != "" then 1 else 0) <= 1
  }

  /** With argparse's groups respected, the file option given is the one
      honoured, and `--print_raw` prints `str(data)` only when no file
      option is given: next to one it prints nothing. */
  lemma OutputChoice(o: Options, t: string, raw: string)
    requires Exclusive(o)
    ensures var r := HandleOutput(o, Ok(t), raw).value;
      && (o.outputAll != "" ==> r.files == TextAndJson(o.outputAll + ".txt", t, o.outputAll + ".json"))
      && (o.outputNormal != "" ==> r.files == TextFile(o.outputNormal, t))
      && (o.outputJson != "" ==> r.files == JsonFile(o.outputJson))
      && (o.printNormal ==> r.stdout == PrintText(t))
      && (o.printJson ==> r.stdout == PrintJson)
      && (o.printRaw ==> r.stdout == if OutputSet(o) then Silent else PrintText(raw))
      && (!o.printNormal && !o.printJson && !o.printRaw ==> r.stdout == if OutputSet(o) then Silent else PrintText(t))
  {
  }

  /** `handle_output` for a results dict: `--print_raw` alone prints
      `str(data)`. */
  function DictOutput(o: Options, d: Dict, text: Result<string>): (r: Result<Output>)
    ensures text.Ok? ==> r.Ok?
    ensures o.printRaw && !o.printNormal && !o.printJson && !OutputSet(o) ==>
      r == Ok(Output(NoFiles, PrintText(DictRepr(d))))
  {
    HandleOutput(o, text, DictRepr(d))
  }
}

/** JSON-like values as the tool sees them after `response.json()`, and the
    Python operations it applies to them: truthiness, `.get`, subscripting,
    iteration, `in`, and the `str()`/`repr()` renderings that appear in its
    text output and in the `str(e)` of the exceptions those operations raise. */
module Json {
  import opened Wrappers
  import opened Strings

  /** An object keeps its fields in document order; numbers are integers. */
  datatype Value =
    | Null
    | Bool(b: bool)
    | Int(i: int)
    | Str(s: string)
    | Arr(items: seq<Value>)
    | Obj(fields: seq<(string, Value)>)

  /** Python truthiness (`if v:`). */
  predicate Truthy(v: Value) {
    match v
    case Null => false
    case Bool(b) => b
    case Int(i) => i != 0
    case Str(s) => |s| > 0
    case Arr(xs) => |xs| > 0
    case Obj(fs) => |fs| > 0
  }

  /** `type(v).__name__`. */
  function TypeName(v: Value): string {
    match v
    case Null => "NoneType"
    case Bool(_) => "bool"
    case Int(_) => "int"
    case Str(_) => "str"
    case Arr(_) => "list"
    case Obj(_) => "dict"
  }

  /** The message of the `AttributeError` raised by `v.name` when `v` has no
      such method. */
  function NoAttribute(v: Value, name: string): string {
    "'" + TypeName(v) + "' object has no attribute '" + name + "'"
  }

  /** The value stored under `key` in an object's fields (first match). */
  function Lookup(fields: seq<(string, Value)>, key: string): (r: Option<Value>)
    ensures r.None? <==> forall i | 0 <= i < |fields| :: fields[i].0 != key
    ensures r.Some? ==> (key, r.value) in fields
  {
    if |fields| == 0 then None
    else if fields[0].0 == key then Some(fields[0].1)
    else Lookup(fields[1..], key)
  }

  /** The value stored under `key` among an object's fields, or `default`. */
  function FieldOr(fields: seq<(string, Value)>, key: string, default: Value): Value {
    Lookup(fields, key).GetOr(default)
  }

  /** A dict lookup with a default; a non-dict has no `get`. */
  function Get(v: Value, key: string, default: Value): Result<Value> {
    if v.Obj? then Ok(FieldOr(v.fields, key, default))
    else Err(NoAttribute(v, "get"))
  }

  /** `v[key]` with a string key. A missing key raises `KeyError`, whose
      text is the key's repr. */
  function Subscript(v: Value, key: string): Result<Value> {
    match v
    case Obj(fs) =>
      (match Lookup(fs, key)
       case Some(x) => Ok(x)
       case None => Err(StrRepr(key)))
    case Arr(_) => Err("list indices must be integers or slices, not str")
    case Str(_) => Err("string indices must be integers, not 'str'")
    case _ => Err("'" + TypeName(v) + "' object is not subscriptable")
  }

  /** `v[0]`. An object parsed from JSON has only string keys, so `0` is
      never one of them. */
  function Index0(v: Value): Result<Value> {
    match v
    case Arr(xs) => if |xs| > 0 then Ok(xs[0]) else Err("list index out of range")
    case Str(s) => if |s| > 0 then Ok(Str([s[0]])) else Err("string index out of range")
    case Obj(_) => Err("0")
    case _ => Err("'" + TypeName(v) + "' object is not subscriptable")
  }

  /** `for x in v`: the elements of a list, the keys of an object, the
      characters of a string; anything else is not iterable. */
  function Iterate(v: Value): (r: Result<seq<Value>>)
    ensures v.Arr? ==> r == Ok(v.items)
  {
    match v
    case Arr(xs) => Ok(xs)
    case Obj(fs) => Ok(seq(|fs|, i requires 0 <= i < |fs| => Str(fs[i].0)))
    case Str(s) => Ok(seq(|s|, i requires 0 <= i < |s| => Str([s[i]])))
    case _ => Err("'" + TypeName(v) + "' object is not iterable")
  }

  /** `key in v` for a string `key`: key membership for an object, element
      equality for a list, substring for a string. */
  function HasMember(v: Value, key: string): Result<bool> {
    match v
    case Obj(fs) => Ok(Lookup(fs, key).Some?)
    case Arr(xs) => Ok(Str(key) in xs)
    case Str(s) => Ok(Contains(s, key))
    case _ => Err("argument of type '" + TypeName(v) + "' is not iterable")
  }

  /** The entry the batch commands store for an identity whose lookup raised. */
  function ErrorValue(msg: string): Value {
    Obj([("error", Str(msg))])
  }

  function HexDigit(d: nat): char
    requires d < 16
  {
    "0123456789abcdef"[d]
  }

  /** `str.isprintable` for one character, exact up to U+00FF: the C0 and
      C1 controls, DEL, the no-break space and the soft hyphen are not
      printable there. Above U+00FF only the line and paragraph separators
      are treated as non-printable. */
  predicate Printable(c: char) {
    !(c as int < 0x20 || 0x7f <= c as int <= 0xa0 || c as int == 0xad
      || c as int == 0x2028 || c as int == 0x2029)
  }

  /** One character inside a string literal written by `repr`: the quote
      and the backslash get a backslash, tab, newline and carriage return
      their letter escapes, other non-printable characters a hex escape,
      and everything else stands for itself. */
  function EscapeChar(c: char, quote: char): (r: string)
    ensures r == [c] <==> Printable(c) && c != quote && c != '\\'
    ensures r != [c] ==> |r| >= 2 && r[0] == '\\'
    ensures c as int < 0x100 && !Printable(c) && c != quote && c !in "\t\n\r" ==>
      r == "\\x" + [HexDigit(c as int / 16), HexDigit(c as int % 16)]
  {
    if c == quote || c == '\\' then ['\\', c]
    else if c == '\t' then "\\t"
    else if c == '\n' then "\\n"
    else if c == '\r' then "\\r"
    else if Printable(c) then [c]
    else if c as int < 0x100 then "\\x" + [HexDigit(c as int / 16), HexDigit(c as int % 16)]
    else "\\u" + [HexDigit(c as int / 0x1000), HexDigit(c as int / 0x100 % 16), HexDigit(c as int / 16 % 16), HexDigit(c as int % 16)]
  }

  function EscapeAll(s: string, quote: char): string {
    if |s| == 0 then "" else EscapeChar(s[0], quote) + EscapeAll(s[1..], quote)
  }

  /** `repr(s)`: single quotes unless the text holds a single quote and no
      double quote. */
  function StrRepr(s: string): string {
    var quote := if '\'' in s && '"' !in s then '"' else '\'';
    [quote] + EscapeAll(s, quote) + [quote]
  }

  /** `repr(v)`, the form a value takes inside a container's `str()`. */
  function Repr(v: Value): string {
    match v
    case Null => "None"
    case Bool(b) => if b then "True" else "False"
    case Int(i) => IntToString(i)
    case Str(s) => StrRepr(s)
    case Arr(xs) =>
      "[" + Join(seq(|xs|, k requires 0 <= k < |xs| => Repr(xs[k])), ", ") + "]"
    case Obj(fs) =>
      "{" + Join(seq(|fs|, k requires 0 <= k < |fs| => StrRepr(fs[k].0) + ": " + Repr(fs[k].1)), ", ") + "}"
  }

  /** `str(v)`, which is what an f-string interpolates. */
  function PyStr(v: Value): string {
    if v.Str? then v.s else Repr(v)
  }
}

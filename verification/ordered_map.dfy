/** The Python `dict` that collects per-identity results: insertion-ordered,
    keyed by Python equality (`True == 1`, `False == 0`), refusing unhashable
    keys, and keeping an existing key's position (and the key object itself)
    when it is assigned again. */
module OrderedMap {
  import opened Wrappers
  import opened Json

  type Entry = (Value, Value)
  type Dict = seq<Entry>

  /** Lists and dicts cannot be dictionary keys. */
  predicate Hashable(k: Value) {
    !k.Arr? && !k.Obj?
  }

  function NumberOf(k: Value): int
    requires k.Bool? || k.Int?
  {
    if k.Bool? then (if k.b then 1 else 0) else k.i
  }

  /** Python `==` between two keys, as a dictionary uses it. */
  predicate KeyEq(a: Value, b: Value) {
    match a
    case Null => b.Null?
    case Str(x) => b.Str? && b.s == x
    case Bool(_) => (b.Bool? || b.Int?) && NumberOf(a) == NumberOf(b)
    case Int(_) => (b.Bool? || b.Int?) && NumberOf(a) == NumberOf(b)
    case _ => false
  }

  /** Key equality is an equivalence on hashable keys. */
  lemma KeyEqEquivalence(a: Value, b: Value, c: Value)
    ensures Hashable(a) ==> KeyEq(a, a)
    ensures KeyEq(a, b) ==> KeyEq(b, a)
    ensures KeyEq(a, b) && KeyEq(b, c) ==> KeyEq(a, c)
    ensures KeyEq(a, b) ==> Hashable(a) && Hashable(b)
  {
  }

  /** Every key hashable and no two keys equal: what any `dict` satisfies. */
  predicate Distinct(d: Dict) {
    && (forall i | 0 <= i < |d| :: Hashable(d[i].0))
    && (forall i, j | 0 <= i < j < |d| :: !KeyEq(d[i].0, d[j].0))
  }

  /** The first components of a list of pairs: a dict's keys, in order. */
  function Keys<K, V>(d: seq<(K, V)>): (ks: seq<K>)
    ensures |ks| == |d| && forall i | 0 <= i < |d| :: ks[i] == d[i].0
  {
    seq(|d|, i requires 0 <= i < |d| => d[i].0)
  }

  /** The position of the entry whose key equals `k`. */
  function IndexOf(d: Dict, k: Value): (r: Option<nat>)
    ensures r.Some? ==> r.value < |d| && KeyEq(d[r.value].0, k)
    ensures r.Some? ==> forall j | 0 <= j < r.value :: !KeyEq(d[j].0, k)
    ensures r.None? <==> forall j | 0 <= j < |d| :: !KeyEq(d[j].0, k)
  {
    if |d| == 0 then None
    else if KeyEq(d[0].0, k) then Some(0)
    else match IndexOf(d[1..], k)
      case None => None
      case Some(i) => Some(i + 1)
  }

  /** The value stored under `k`, if any. */
  function Find(d: Dict, k: Value): Option<Value> {
    match IndexOf(d, k)
    case None => None
    case Some(i) => Some(d[i].1)
  }

  /** The first entry decides `Find`; the rest is searched only when its key
      differs. */
  lemma FindCons(e: Entry, d: Dict, k: Value)
    ensures Find([e] + d, k) == if KeyEq(e.0, k) then Some(e.1) else Find(d, k)
  {
    assert ([e] + d)[1..] == d;
  }

  /** Keys that compare equal find the same entry. */
  lemma {:induction false} IndexOfKeyEq(d: Dict, a: Value, b: Value)
    requires KeyEq(a, b)
    ensures IndexOf(d, a) == IndexOf(d, b)
    ensures Find(d, a) == Find(d, b)
    decreases |d|
  {
    if |d| > 0 {
      KeyEqEquivalence(a, b, b);
      KeyEqEquivalence(d[0].0, a, b);
      KeyEqEquivalence(d[0].0, b, a);
      IndexOfKeyEq(d[1..], a, b);
    }
  }

  /** `d[k] = v`: a new key goes to the end, an existing key keeps its place
      (and its original key object) and only its value changes. An
      unhashable key raises `TypeError`. */
  function Put(d: Dict, k: Value, v: Value): (r: Result<Dict>)
    ensures r.Err? <==> !Hashable(k)
    ensures r.Ok? ==> Find(r.value, k) == Some(v)
    ensures r.Ok? ==> forall k' | !KeyEq(k', k) :: Find(r.value, k') == Find(d, k')
    ensures r.Ok? && Find(d, k).Some? ==> Keys(r.value) == Keys(d)
    ensures r.Ok? && Find(d, k).None? ==> Keys(r.value) == Keys(d) + [k]
    ensures r.Ok? && Distinct(d) ==> Distinct(r.value)
  {
    if !Hashable(k) then Err("unhashable type: '" + TypeName(k) + "'")
    else match IndexOf(d, k)
      case Some(i) =>
        var r := d[i := (d[i].0, v)];
        PutExistingFind(d, i, k, v);
        assert Keys(r) == Keys(d);
        Ok(r)
      case None =>
        var r := d + [(k, v)];
        PutNewFind(d, k, v);
        assert Keys(r) == Keys(d) + [k];
        Ok(r)
  }

  lemma {:induction false} PutExistingFind(d: Dict, i: nat, k: Value, v: Value)
    requires IndexOf(d, k) == Some(i)
    ensures Find(d[i := (d[i].0, v)], k) == Some(v)
    ensures forall k' | !KeyEq(k', k) :: Find(d[i := (d[i].0, v)], k') == Find(d, k')
    ensures Distinct(d) ==> Distinct(d[i := (d[i].0, v)])
  {
    var r := d[i := (d[i].0, v)];
    assert forall j | 0 <= j < |d| :: r[j].0 == d[j].0;
    IndexOfSameKeys(d, r, k);
    forall k' | !KeyEq(k', k)
      ensures Find(r, k') == Find(d, k')
    {
      IndexOfSameKeys(d, r, k');
      var o := IndexOf(d, k');
      if o.Some? && o.value == i {
        KeyEqEquivalence(d[i].0, k', k);
        KeyEqEquivalence(k', d[i].0, k);
        KeyEqEquivalence(d[i].0, k, k);
      }
    }
  }

  lemma {:induction false} IndexOfSameKeys(d: Dict, r: Dict, k: Value)
    requires |d| == |r| && forall j | 0 <= j < |d| :: r[j].0 == d[j].0
    ensures IndexOf(r, k) == IndexOf(d, k)
  {
    if |d| > 0 {
      IndexOfSameKeys(d[1..], r[1..], k);
    }
  }

  lemma {:induction false} PutNewFind(d: Dict, k: Value, v: Value)
    requires Hashable(k) && IndexOf(d, k).None?
    ensures Find(d + [(k, v)], k) == Some(v)
    ensures forall k' | !KeyEq(k', k) :: Find(d + [(k, v)], k') == Find(d, k')
    ensures Distinct(d) ==> Distinct(d + [(k, v)])
  {
    var r := d + [(k, v)];
    IndexOfAppend(d, (k, v), k);
    KeyEqEquivalence(k, k, k);
    forall k' | !KeyEq(k', k)
      ensures Find(r, k') == Find(d, k')
    {
      IndexOfAppend(d, (k, v), k');
      KeyEqEquivalence(k, k', k);
    }
    if Distinct(d) {
      forall i | 0 <= i < |d|
        ensures !KeyEq(r[i].0, k)
      {
        assert !KeyEq(d[i].0, k);
      }
    }
  }

  lemma IndexOfAppend(d: Dict, e: Entry, k: Value)
    ensures IndexOf(d, k).Some? ==> IndexOf(d + [e], k) == IndexOf(d, k)
    ensures IndexOf(d, k).None? ==> IndexOf(d + [e], k) == if KeyEq(e.0, k) then Some(|d|) else None
  {
    var de := d + [e];
    assert forall j | 0 <= j < |d| :: de[j] == d[j];
    assert de[|d|] == e;
    match IndexOf(d, k)
    case Some(i) =>
      IndexOfIs(de, k, i);
    case None =>
      if KeyEq(e.0, k) {
        IndexOfIs(de, k, |d|);
      } else {
        assert forall j | 0 <= j < |de| :: !KeyEq(de[j].0, k);
      }
  }

  /** The first entry whose key matches is the one `IndexOf` finds. */
  lemma IndexOfIs(d: Dict, k: Value, i: nat)
    requires i < |d| && KeyEq(d[i].0, k)
    requires forall j | 0 <= j < i :: !KeyEq(d[j].0, k)
    ensures IndexOf(d, k) == Some(i)
  {
    var r := IndexOf(d, k);
    assert r.Some?;
  }

  /** `a` is `b` with some entries left out. */
  ghost predicate IsSubseq<T>(a: seq<T>, b: seq<T>)
    decreases |b|
  {
    |a| == 0 || (|b| > 0 && (IsSubseq(a, b[1..]) || (a[0] == b[0] && IsSubseq(a[1..], b[1..]))))
  }

  lemma SubseqMembers<T>(a: seq<T>, b: seq<T>)
    requires IsSubseq(a, b)
    ensures forall x | x in a :: x in b
    decreases |b|
  {
    if |a| > 0 {
      if IsSubseq(a, b[1..]) {
        SubseqMembers(a, b[1..]);
      } else {
        SubseqMembers(a[1..], b[1..]);
        assert a == [a[0]] + a[1..];
      }
    }
  }

  lemma SubseqRefl<T>(a: seq<T>)
    ensures IsSubseq(a, a)
    decreases |a|
  {
    if |a| > 0 {
      SubseqRefl(a[1..]);
    }
  }

  lemma SubseqTrans<T>(a: seq<T>, b: seq<T>, c: seq<T>)
    requires IsSubseq(a, b) && IsSubseq(b, c)
    ensures IsSubseq(a, c)
    decreases |c|
  {
    if |a| > 0 {
      if IsSubseq(b, c[1..]) {
        SubseqTrans(a, b, c[1..]);
      } else {
        if IsSubseq(a, b[1..]) {
          SubseqTrans(a, b[1..], c[1..]);
        } else {
          SubseqTrans(a[1..], b[1..], c[1..]);
        }
      }
    }
  }

  /** Apply an optional function to an optional value. */
  function Then(o: Option<Value>, f: Value -> Option<Value>): Option<Value> {
    match o
    case None => None
    case Some(v) => f(v)
  }

  /** A dict comprehension that keeps, in order, the entries for which `f`
      returns `Some(w)`, with `w` as the new value. */
  function Select(d: Dict, f: Value -> Option<Value>): (r: Dict)
    ensures IsSubseq(Keys(r), Keys(d))
    ensures Distinct(d) ==> Distinct(r)
    ensures Distinct(d) ==> forall k :: Find(r, k) == Then(Find(d, k), f)
  {
    if |d| == 0 then []
    else
      var rest := Select(d[1..], f);
      SelectKeys(d, f, rest);
      SelectFind(d, f, rest);
      match f(d[0].1)
      case None => rest
      case Some(w) =>
        SelectCons(d, f, w, rest);
        [(d[0].0, w)] + rest
  }

  /** The keys the comprehension keeps are among those of the dict. */
  lemma SelectKeys(d: Dict, f: Value -> Option<Value>, rest: Dict)
    requires |d| > 0 && IsSubseq(Keys(rest), Keys(d[1..]))
    ensures IsSubseq(Keys(rest), Keys(d))
    ensures f(d[0].1).Some? ==> IsSubseq(Keys([(d[0].0, f(d[0].1).value)] + rest), Keys(d))
  {
    var kd := Keys(d);
    assert kd[1..] == Keys(d[1..]);
    if f(d[0].1).Some? {
      var kr := Keys([(d[0].0, f(d[0].1).value)] + rest);
      assert kr[0] == kd[0];
      assert kr[1..] == Keys(rest);
    }
  }

  lemma DistinctTail(d: Dict)
    requires |d| > 0 && Distinct(d)
    ensures Distinct(d[1..])
    ensures forall k | KeyEq(d[0].0, k) :: Find(d[1..], k).None?
  {
    forall k | KeyEq(d[0].0, k)
      ensures Find(d[1..], k).None?
    {
      forall j | 0 <= j < |d[1..]|
        ensures !KeyEq(d[1..][j].0, k)
      {
        assert d[1..][j] == d[j + 1];
        KeyEqEquivalence(d[0].0, k, d[j + 1].0);
        KeyEqEquivalence(d[j + 1].0, k, k);
        assert !KeyEq(d[0].0, d[j + 1].0);
      }
    }
  }

  lemma SelectFind(d: Dict, f: Value -> Option<Value>, rest: Dict)
    requires |d| > 0
    requires Distinct(d[1..]) ==> forall k :: Find(rest, k) == Then(Find(d[1..], k), f)
    ensures Distinct(d) && f(d[0].1).None? ==> forall k :: Find(rest, k) == Then(Find(d, k), f)
    ensures Distinct(d) && f(d[0].1).Some? ==> forall k :: Find([(d[0].0, f(d[0].1).value)] + rest, k) == Then(Find(d, k), f)
  {
    if !Distinct(d) {
      return;
    }
    DistinctTail(d);
    assert d == [d[0]] + d[1..];
    forall k
      ensures Find(d, k) == if KeyEq(d[0].0, k) then Some(d[0].1) else Find(d[1..], k)
    {
      FindCons(d[0], d[1..], k);
    }
    if f(d[0].1).Some? {
      forall k
        ensures Find([(d[0].0, f(d[0].1).value)] + rest, k) == Then(Find(d, k), f)
      {
        FindCons((d[0].0, f(d[0].1).value), rest, k);
      }
    }
  }

  lemma SelectCons(d: Dict, f: Value -> Option<Value>, w: Value, rest: Dict)
    requires |d| > 0 && f(d[0].1) == Some(w)
    requires IsSubseq(Keys(rest), Keys(d[1..])) && (Distinct(d[1..]) ==> Distinct(rest))
    ensures Distinct(d) ==> Distinct([(d[0].0, w)] + rest)
  {
    if !Distinct(d) {
      return;
    }
    DistinctTail(d);
    HeadNotSelected(d, rest);
    DistinctCons((d[0].0, w), rest);
  }

  /** What the comprehension keeps from the tail never has the head's key. */
  lemma HeadNotSelected(d: Dict, rest: Dict)
    requires |d| > 0 && Distinct(d) && IsSubseq(Keys(rest), Keys(d[1..]))
    ensures forall j | 0 <= j < |rest| :: !KeyEq(d[0].0, rest[j].0)
  {
    SubseqMembers(Keys(rest), Keys(d[1..]));
    forall j | 0 <= j < |rest|
      ensures !KeyEq(d[0].0, rest[j].0)
    {
      assert Keys(rest)[j] == rest[j].0;
      assert rest[j].0 in Keys(d[1..]);
      var m :| 0 <= m < |d[1..]| && Keys(d[1..])[m] == rest[j].0;
      assert !KeyEq(d[0].0, d[m + 1].0);
    }
  }

  /** A hashable key that matches none of a distinct dict's keys can go in
      front of it. */
  lemma DistinctCons(e: Entry, rest: Dict)
    requires Hashable(e.0) && Distinct(rest)
    requires forall j | 0 <= j < |rest| :: !KeyEq(e.0, rest[j].0)
    ensures Distinct([e] + rest)
  {
    var r := [e] + rest;
    assert forall j | 1 <= j < |r| :: r[j] == rest[j - 1];
  }
}

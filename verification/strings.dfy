/** The Python `str` operations the tool relies on, restated over `string`
    (a sequence of Unicode scalar values): `strip`, `removesuffix`, `lower`,
    `in`, `split`, `join`, `isdigit`/`int` and `str(int)`. */
module Strings {
  import opened Wrappers

  /** Python's `str.isspace` for a single character: the ASCII separators,
      the C0 information separators and the Unicode space characters. */
  predicate IsSpace(c: char) {
    var n := c as int;
    || 9 <= n <= 13 || 28 <= n <= 32 || n == 0x85 || n == 0xA0 || n == 0x1680
    || 0x2000 <= n <= 0x200A || n == 0x2028 || n == 0x2029 || n == 0x202F || n == 0x205F || n == 0x3000
  }

  /** Every character is whitespace; `not s.strip()` in Python. */
  predicate IsBlank(s: string) {
    forall i | 0 <= i < |s| :: IsSpace(s[i])
  }

  /** The position of the first non-whitespace character at or after
      `i`, or `|s|`. */
  function Lead(s: string, i: nat): (k: nat)
    requires i <= |s|
    ensures i <= k <= |s|
    ensures forall j | i <= j < k :: IsSpace(s[j])
    ensures k < |s| ==> !IsSpace(s[k])
    decreases |s| - i
  {
    if i < |s| && IsSpace(s[i]) then Lead(s, i + 1) else i
  }

  /** The position just after the last non-whitespace character before
      `i`, or 0. */
  function Trail(s: string, i: nat): (k: nat)
    requires i <= |s|
    ensures k <= i
    ensures forall j | k <= j < i :: IsSpace(s[j])
    ensures k > 0 ==> !IsSpace(s[k - 1])
    decreases i
  {
    if i > 0 && IsSpace(s[i - 1]) then Trail(s, i - 1) else i
  }

  /** `s.lstrip()`: the suffix left after dropping leading whitespace. */
  function LStrip(s: string): (r: string)
    ensures |r| <= |s| && r == s[|s| - |r|..]
    ensures IsBlank(s[..|s| - |r|])
    ensures |r| > 0 ==> !IsSpace(r[0])
  {
    var k := Lead(s, 0);
    assert forall j | 0 <= j < k :: s[..k][j] == s[j];
    s[k..]
  }

  /** `s.rstrip()`: the prefix left after dropping trailing whitespace. */
  function RStrip(s: string): (r: string)
    ensures |r| <= |s| && r == s[..|r|]
    ensures IsBlank(s[|r|..])
    ensures |r| > 0 ==> !IsSpace(r[|r| - 1])
  {
    var k := Trail(s, |s|);
    assert forall j | k <= j < |s| :: s[k..][j - k] == s[j];
    s[..k]
  }

  /** `s.strip()`: the middle part of `s` between leading and trailing
      whitespace; it is empty exactly when `s` is blank. */
  function Strip(s: string): (r: string)
    ensures |r| <= |LStrip(s)| <= |s|
    ensures r == s[|s| - |LStrip(s)|..|s| - |LStrip(s)| + |r|]
    ensures r == [] <==> IsBlank(s)
    ensures |r| > 0 ==> !IsSpace(r[0]) && !IsSpace(r[|r| - 1])
  {
    StripIsMiddle(s);
    StripEmptyIffBlank(s);
    StripEnds(s);
    RStrip(LStrip(s))
  }

  lemma {:induction false} StripEnds(s: string)
    ensures |RStrip(LStrip(s))| > 0 ==>
      !IsSpace(RStrip(LStrip(s))[0]) && !IsSpace(RStrip(LStrip(s))[|RStrip(LStrip(s))| - 1])
  {
    var l := LStrip(s);
    var r := RStrip(l);
    if |r| > 0 {
      assert r[0] == l[0];
    }
  }

  lemma {:induction false} StripIsMiddle(s: string)
    ensures RStrip(LStrip(s)) == s[|s| - |LStrip(s)|..|s| - |LStrip(s)| + |RStrip(LStrip(s))|]
  {
    var l := LStrip(s);
    var a := |s| - |l|;
    var r := RStrip(l);
    assert l == s[a..];
    assert r == l[..|r|];
    SliceOfSuffix(s, a, |r|);
  }

  lemma SliceOfSuffix(s: string, a: nat, n: nat)
    requires a + n <= |s|
    ensures s[a..][..n] == s[a..a + n]
  {
  }

  lemma {:induction false} StripEmptyIffBlank(s: string)
    ensures RStrip(LStrip(s)) == [] <==> IsBlank(s)
  {
    var l := LStrip(s);
    var a := |s| - |l|;
    var r := RStrip(l);
    if r == [] {
      assert IsBlank(l) by { assert l[0..] == l; }
      assert s == s[..a] + l;
      BlankConcat(s[..a], l);
    } else {
      assert s[a] == l[0] == r[0];
    }
  }

  lemma BlankConcat(a: string, b: string)
    requires IsBlank(a) && IsBlank(b)
    ensures IsBlank(a + b)
  {
    forall i | 0 <= i < |a + b|
      ensures IsSpace((a + b)[i])
    {
      if i < |a| { assert (a + b)[i] == a[i]; } else { assert (a + b)[i] == b[i - |a|]; }
    }
  }

  /** A string is its own strip exactly when it neither starts nor ends with
      whitespace; in particular `Strip` is idempotent. */
  lemma {:induction false} StripFixpoint(s: string)
    ensures Strip(s) == s <==> (|s| == 0 || (!IsSpace(s[0]) && !IsSpace(s[|s| - 1])))
    ensures Strip(Strip(s)) == Strip(s)
  {
    var t := Strip(s);
    assert |t| == 0 || (!IsSpace(t[0]) && !IsSpace(t[|t| - 1]));
    StripOfTrimmed(t);
    if |s| == 0 || (!IsSpace(s[0]) && !IsSpace(s[|s| - 1])) {
      StripOfTrimmed(s);
    }
  }

  lemma StripOfTrimmed(t: string)
    requires |t| == 0 || (!IsSpace(t[0]) && !IsSpace(t[|t| - 1]))
    ensures Strip(t) == t
  {
    assert Lead(t, 0) == 0;
    assert LStrip(t) == t;
    assert Trail(t, |t|) == |t|;
    assert RStrip(t) == t;
  }

  /** `LStrip` stops at the first non-whitespace character. */
  lemma LStripAt(s: string, k: nat)
    requires k < |s| && IsBlank(s[..k]) && !IsSpace(s[k])
    ensures LStrip(s) == s[k..]
  {
    var r := LStrip(s);
    var a := |s| - |r|;
    assert forall j | 0 <= j < k :: IsSpace(s[j]) by {
      forall j | 0 <= j < k ensures IsSpace(s[j]) { assert s[..k][j] == s[j]; }
    }
    assert forall j | 0 <= j < a :: IsSpace(s[j]) by {
      forall j | 0 <= j < a ensures IsSpace(s[j]) { assert s[..a][j] == s[j]; }
    }
    assert |r| > 0 ==> r[0] == s[a];
  }

  /** `RStrip` stops at the last non-whitespace character. */
  lemma RStripAt(s: string, k: nat)
    requires k < |s| && IsBlank(s[k + 1..]) && !IsSpace(s[k])
    ensures RStrip(s) == s[..k + 1]
  {
    var r := RStrip(s);
    assert forall j | k < j < |s| :: IsSpace(s[j]) by {
      forall j | k < j < |s| ensures IsSpace(s[j]) { assert s[k + 1..][j - k - 1] == s[j]; }
    }
    assert forall j | |r| <= j < |s| :: IsSpace(s[j]) by {
      forall j | |r| <= j < |s| ensures IsSpace(s[j]) { assert s[|r|..][j - |r|] == s[j]; }
    }
    assert |r| > 0 ==> r[|r| - 1] == s[|r| - 1];
  }

  /** Whitespace around a string that neither starts nor ends with
      whitespace is exactly what `Strip` removes. */
  lemma {:induction false} StripAround(a: string, s: string, b: string)
    requires IsBlank(a) && IsBlank(b) && |s| > 0 && !IsSpace(s[0]) && !IsSpace(s[|s| - 1])
    ensures Strip(a + s + b) == s
  {
    var u := a + s + b;
    assert u[..|a|] == a;
    LStripAt(u, |a|);
    var l := u[|a|..];
    assert l == s + b;
    assert l[|s|..] == b;
    RStripAt(l, |s| - 1);
    assert l[..|s|] == s;
  }

  /** Trimming a string that is not blank leaves a string that is not
      blank. */
  lemma StripNotBlank(s: string)
    requires !IsBlank(s)
    ensures !IsBlank(Strip(s))
  {
    var t := Strip(s);
    assert !IsSpace(t[0]);
  }

  /** Trimming never introduces a character. */
  lemma StripKeepsAbsent(s: string, c: char)
    requires c !in s
    ensures c !in Strip(s)
  {
  }

  lemma AbsentFromSuffix(s: string, c: char, k: nat)
    requires c !in s && k <= |s|
    ensures c !in s[k..]
  {
    assert forall i | 0 <= i < |s| - k :: s[k..][i] == s[k + i];
  }

  predicate EndsWith(s: string, suffix: string) {
    |suffix| <= |s| && s[|s| - |suffix|..] == suffix
  }

  /** `s.removesuffix(suffix)`: drops one copy of `suffix` from the end. */
  function RemoveSuffix(s: string, suffix: string): (r: string)
    ensures EndsWith(s, suffix) ==> r + suffix == s
    ensures !EndsWith(s, suffix) ==> r == s
  {
    if EndsWith(s, suffix) then s[..|s| - |suffix|] else s
  }

  /** Appending a suffix and removing it again gives back the string. */
  lemma SuffixAppended(x: string, suffix: string)
    ensures EndsWith(x + suffix, suffix)
    ensures RemoveSuffix(x + suffix, suffix) == x
  {
    assert (x + suffix)[|x|..] == suffix;
    assert (x + suffix)[..|x|] == x;
  }

  /** `str.lower` restricted to ASCII letters. */
  function LowerChar(c: char): char {
    if 'A' <= c <= 'Z' then (c as int + 32) as char else c
  }

  function Lower(s: string): (r: string)
    ensures |r| == |s|
  {
    seq(|s|, i requires 0 <= i < |s| => LowerChar(s[i]))
  }

  /** Lower-casing leaves non-letters, a space in particular, in place. */
  lemma LowerKeepsSpace(w: string)
    requires ' ' !in Lower(w)
    ensures ' ' !in w
  {
    forall k | 0 <= k < |w|
      ensures w[k] != ' '
    {
      assert Lower(w)[k] == LowerChar(w[k]);
    }
  }

  lemma LowerSlice(s: string, i: int, j: int)
    requires 0 <= i <= j <= |s|
    ensures Lower(s)[i..j] == Lower(s[i..j])
  {
  }

  predicate OccursAt(s: string, sub: string, i: int) {
    0 <= i && i + |sub| <= |s| && s[i..i + |sub|] == sub
  }

  /** `sub in s`. */
  predicate Contains(s: string, sub: string) {
    exists i | 0 <= i <= |s| - |sub| :: OccursAt(s, sub, i)
  }

  /** An occurrence survives lower-casing: so a case-insensitive test
      `w in url.lower()` finds every spelling of `w`. */
  lemma {:induction false} LowerKeepsOccurrence(s: string, sub: string, i: int)
    requires OccursAt(s, sub, i)
    ensures OccursAt(Lower(s), Lower(sub), i)
    ensures Contains(Lower(s), Lower(sub))
  {
    LowerSlice(s, i, i + |sub|);
    assert OccursAt(Lower(s), Lower(sub), i);
  }

  /** The first position at or after `k` where `sep` occurs. */
  function FindFrom(s: string, sep: string, k: nat): (r: Option<nat>)
    ensures r.Some? ==> k <= r.value && OccursAt(s, sep, r.value)
    ensures r.Some? ==> forall j | k <= j < r.value :: !OccursAt(s, sep, j)
    ensures r.None? ==> forall j | k <= j :: !OccursAt(s, sep, j)
    decreases |s| - k
  {
    if k + |sep| > |s| then None
    else if s[k..k + |sep|] == sep then Some(k)
    else FindFrom(s, sep, k + 1)
  }

  lemma NoOccurrenceInPrefix(s: string, sep: string, i: nat)
    requires i <= |s| && |sep| > 0
    requires forall j | 0 <= j < i :: !OccursAt(s, sep, j)
    ensures !Contains(s[..i], sep)
  {
    forall j | 0 <= j <= i - |sep|
      ensures !OccursAt(s[..i], sep, j)
    {
      assert s[..i][j..j + |sep|] == s[j..j + |sep|];
      assert !OccursAt(s, sep, j);
    }
  }

  lemma NoOccurrenceInSuffix(s: string, sep: string, k: nat)
    requires k <= |s|
    requires forall j | k <= j :: !OccursAt(s, sep, j)
    ensures !Contains(s[k..], sep)
  {
    forall j | 0 <= j <= |s| - k - |sep|
      ensures !OccursAt(s[k..], sep, j)
    {
      assert s[k..][j..j + |sep|] == s[k + j..k + j + |sep|];
      assert !OccursAt(s, sep, k + j);
    }
  }

  /** `sep.join(xs)`. */
  function Join(xs: seq<string>, sep: string): string {
    if |xs| == 0 then ""
    else if |xs| == 1 then xs[0]
    else xs[0] + sep + Join(xs[1..], sep)
  }

  /** `s.split(sep)` for a non-empty separator (Python raises on an empty
      one): the pieces between the occurrences found left to right. Joining
      the pieces again gives back `s`, and no piece contains `sep`. */
  function Split(s: string, sep: string): (r: seq<string>)
    requires |sep| > 0
    ensures |r| >= 1
    ensures Join(r, sep) == s
    ensures forall k | 0 <= k < |r| :: !Contains(r[k], sep)
    decreases |s|
  {
    match FindFrom(s, sep, 0)
    case None =>
      NoOccurrenceInSuffix(s, sep, 0);
      assert s[0..] == s;
      [s]
    case Some(i) =>
      NoOccurrenceInPrefix(s, sep, i);
      var rest := Split(s[i + |sep|..], sep);
      assert s == s[..i] + sep + s[i + |sep|..];
      [s[..i]] + rest
  }

  /** A string without the one-character substring `[c]` does not hold `c`. */
  lemma NotContainsChar(s: string, c: char)
    requires !Contains(s, [c])
    ensures c !in s
  {
    if c in s {
      var i :| 0 <= i < |s| && s[i] == c;
      assert s[i..i + 1] == [c];
      assert OccursAt(s, [c], i);
    }
  }

  /** A character absent from a joined string is absent from every piece. */
  lemma {:induction false} JoinKeepsAbsent(xs: seq<string>, sep: string, c: char, k: nat)
    requires k < |xs| && c !in Join(xs, sep)
    ensures c !in xs[k]
    decreases |xs|
  {
    if |xs| > 1 {
      assert Join(xs, sep) == xs[0] + sep + Join(xs[1..], sep);
      if k > 0 {
        JoinKeepsAbsent(xs[1..], sep, c, k - 1);
      }
    }
  }

  /** A string without the separator splits into itself alone. */
  lemma SplitNone(x: string, c: char)
    requires c !in x
    ensures Split(x, [c]) == [x]
  {
    forall j | 0 <= j < |x|
      ensures !OccursAt(x, [c], j)
    {
      assert x[j..j + 1] == [x[j]];
    }
    assert x[0..] == x;
  }

  /** Splitting at the first separator: the text before it is the first
      piece and the rest is split on. */
  lemma SplitCons(x: string, rest: string, c: char)
    requires c !in x
    ensures Split(x + [c] + rest, [c]) == [x] + Split(rest, [c])
  {
    var s := x + [c] + rest;
    forall j | 0 <= j < |x|
      ensures !OccursAt(s, [c], j)
    {
      assert s[j..j + 1] == [s[j]];
      assert s[j] == x[j];
    }
    assert OccursAt(s, [c], |x|) by { assert s[|x|..|x| + 1] == [c]; }
    assert FindFrom(s, [c], 0) == Some(|x|);
    assert s[..|x|] == x;
    assert s[|x| + 1..] == rest;
  }

  /** A string in which `sep` does not occur splits into itself alone. */
  lemma SplitWhole(x: string, sep: string)
    requires |sep| > 0 && !Contains(x, sep)
    ensures Split(x, sep) == [x]
  {
    assert FindFrom(x, sep, 0).None?;
    assert x[0..] == x;
  }

  /** Splitting at a first separator whose first character the text before
      it lacks. */
  lemma SplitFirst(x: string, sep: string, rest: string)
    requires |sep| > 0 && sep[0] !in x
    ensures Split(x + sep + rest, sep) == [x] + Split(rest, sep)
  {
    var s := x + sep + rest;
    forall j | 0 <= j < |x|
      ensures !OccursAt(s, sep, j)
    {
      assert s[j..j + |sep|][0] == x[j];
    }
    assert OccursAt(s, sep, |x|) by { assert s[|x|..|x| + |sep|] == sep; }
    assert FindFrom(s, sep, 0) == Some(|x|);
    assert s[..|x|] == x;
    assert s[|x| + |sep|..] == rest;
  }

  /** No proper prefix of `sep` is also a suffix of it, so two occurrences
      of `sep` never overlap. */
  predicate BorderFree(sep: string) {
    forall t | 0 < t < |sep| :: sep[t..] != sep[..|sep| - t]
  }

  /** Overlapping occurrences of a separator exhibit a border. */
  lemma OverlapIsBorder(s: string, sep: string, i: nat, k: nat)
    requires OccursAt(s, sep, i) && OccursAt(s, sep, k) && i < k < i + |sep|
    ensures !BorderFree(sep)
  {
    var t := k - i;
    assert sep[t..] == s[k..i + |sep|];
    assert sep[..|sep| - t] == s[k..i + |sep|];
  }

  /** The first piece of a split ends at the first separator when the text
      before it holds none and no occurrence can straddle it. */
  lemma SplitFirstPiece(p: string, sep: string, z: string)
    requires |sep| > 0 && BorderFree(sep) && !Contains(p, sep)
    ensures Split(p + sep + z, sep)[0] == p
  {
    var s := p + sep + z;
    assert OccursAt(s, sep, |p|) by { assert s[|p|..|p| + |sep|] == sep; }
    var i := FindFrom(s, sep, 0).value;
    if i < |p| {
      if i + |sep| <= |p| {
        assert p[i..i + |sep|] == s[i..i + |sep|];
        assert OccursAt(p, sep, i);
      } else {
        OverlapIsBorder(s, sep, i, |p|);
      }
    }
    assert s[..|p|] == p;
  }

  /** The last piece of a split is what follows the last separator when no
      separator occurs after it and none can straddle it. */
  lemma {:induction false} SplitLastPiece(a: string, sep: string, m: string)
    requires |sep| > 0 && BorderFree(sep) && !Contains(m, sep)
    ensures |Split(a + sep + m, sep)| >= 2
    ensures Split(a + sep + m, sep)[|Split(a + sep + m, sep)| - 1] == m
    decreases |a|
  {
    var s := a + sep + m;
    assert OccursAt(s, sep, |a|) by { assert s[|a|..|a| + |sep|] == sep; }
    var i := FindFrom(s, sep, 0).value;
    var rest := Split(s[i + |sep|..], sep);
    assert Split(s, sep) == [s[..i]] + rest;
    if i == |a| {
      assert s[i + |sep|..] == m;
      SplitWhole(m, sep);
    } else if i + |sep| > |a| {
      OverlapIsBorder(s, sep, i, |a|);
    } else {
      var a' := a[i + |sep|..];
      assert s[i + |sep|..] == a' + sep + m;
      SplitLastPiece(a', sep, m);
    }
  }

  lemma JoinCons(x: string, xs: seq<string>, sep: string)
    requires |xs| >= 1
    ensures Join([x] + xs, sep) == x + sep + Join(xs, sep)
  {
    assert ([x] + xs)[1..] == xs;
  }

  /** Splitting on a one-character separator undoes `Join` when no piece
      contains that character. */
  lemma {:induction false} SplitJoin(xs: seq<string>, c: char)
    requires |xs| >= 1
    requires forall k | 0 <= k < |xs| :: c !in xs[k]
    ensures Split(Join(xs, [c]), [c]) == xs
    decreases |xs|
  {
    if |xs| == 1 {
      SplitNone(xs[0], c);
    } else {
      var rest := Join(xs[1..], [c]);
      assert Join(xs, [c]) == xs[0] + [c] + rest;
      SplitCons(xs[0], rest, c);
      SplitJoin(xs[1..], c);
      assert xs == [xs[0]] + xs[1..];
    }
  }


  /** The first position of `c` in `s`. */
  function IndexOf(s: string, c: char): (r: Option<nat>)
    ensures r.Some? ==> r.value < |s| && s[r.value] == c && c !in s[..r.value]
    ensures r.None? <==> c !in s
  {
    if |s| == 0 then None
    else if s[0] == c then Some(0)
    else match IndexOf(s[1..], c)
      case None => None
      case Some(i) =>
        assert s[..i + 1] == [s[0]] + s[1..][..i];
        Some(i + 1)
  }

  /** The first `c` of `w + rest`, when `w` has none, is the first `c` of
      `rest`, shifted past `w`. */
  lemma IndexOfAfter(w: string, rest: string, c: char)
    requires c !in w
    ensures IndexOf(w + rest, c) == match IndexOf(rest, c) case None => None case Some(i) => Some(i + |w|)
  {
    var s := w + rest;
    if IndexOf(rest, c).Some? {
      var i := IndexOf(rest, c).value;
      assert s[|w| + i] == rest[i];
      assert s[..|w| + i] == w + rest[..i];
      IndexOfUnique(s, c, |w| + i);
    }
  }

  /** The first `c` is the one with no `c` before it. */
  lemma IndexOfUnique(s: string, c: char, i: nat)
    requires i < |s| && s[i] == c && c !in s[..i]
    ensures IndexOf(s, c) == Some(i)
  {
    var r := IndexOf(s, c);
    assert r.Some?;
    assert forall j | 0 <= j < i :: s[..i][j] == s[j];
    assert forall j | 0 <= j < r.value :: s[..r.value][j] == s[j];
  }

  /** Partitioning a word, the separator and the rest gives back the word
      and the rest. */
  lemma PartitionWord(w: string, rest: string, c: char)
    requires c !in w
    ensures Partition(w + [c] + rest, c) == Some((w, rest))
  {
    var t := [c] + rest;
    assert IndexOf(t, c) == Some(0);
    IndexOfAfter(w, t, c);
    var s := w + [c] + rest;
    assert s == w + t;
    assert IndexOf(s, c) == Some(|w|);
    assert s[..|w|] == w;
    assert s[|w| + 1..] == rest;
  }

  /** `s.split(c, 1)` when `c in s`: the text before the first `c` and
      everything after it; `None` when `c` does not occur. */
  function Partition(s: string, c: char): (r: Option<(string, string)>)
    ensures r.None? <==> c !in s
    ensures r.Some? ==> s == r.value.0 + [c] + r.value.1 && c !in r.value.0
  {
    match IndexOf(s, c)
    case None => None
    case Some(i) =>
      assert s == s[..i] + [c] + s[i + 1..];
      Some((s[..i], s[i + 1..]))
  }

  predicate IsDigit(c: char) {
    '0' <= c <= '9'
  }

  /** `s.isdigit()` for ASCII digits: non-empty and all digits. */
  predicate IsDigits(s: string) {
    |s| > 0 && forall i | 0 <= i < |s| :: IsDigit(s[i])
  }

  /** `int(s)` for a string of ASCII digits (leading zeros allowed). */
  function DigitsValue(s: string): nat
    requires forall i | 0 <= i < |s| :: IsDigit(s[i])
  {
    if |s| == 0 then 0
    else
      assert IsDigit(s[|s| - 1]);
      DigitsValue(s[..|s| - 1]) * 10 + (s[|s| - 1] as int - '0' as int)
  }

  function DigitChar(d: nat): (c: char)
    requires d < 10
    ensures IsDigit(c) && c as int - '0' as int == d
  {
    ('0' as int + d) as char
  }

  /** `str(n)` for a natural number: decimal digits without leading zeros. */
  function NatToString(n: nat): (r: string)
    ensures IsDigits(r)
    ensures |r| > 1 ==> r[0] != '0'
  {
    if n < 10 then [DigitChar(n)] else NatToString(n / 10) + [DigitChar(n % 10)]
  }

  /** `str(i)` for an integer. */
  function IntToString(i: int): string {
    if i < 0 then "-" + NatToString(-i) else NatToString(i)
  }

  /** `int(str(n)) == n`: the decimal rendering parses back. */
  lemma {:induction false} DigitsRoundTrip(n: nat)
    ensures DigitsValue(NatToString(n)) == n
  {
    if n >= 10 {
      var s := NatToString(n);
      assert s[..|s| - 1] == NatToString(n / 10);
      DigitsRoundTrip(n / 10);
    }
  }
}

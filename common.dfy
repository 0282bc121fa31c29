/** Values shared by the front end and the back end: optional values, the
    JavaScript values that node configuration holds, and decimal numerals
    (the counters inside node ids and handle ids). */
module Common {

  datatype Option<T> = None | Some(value: T) {
    function GetOr(default: T): T {
      match this
      case Some(v) => v
      case None => default
    }
  }

  /** A JavaScript value held by a configuration field or by node data:
      a string, a boolean or `null`. `undefined` is `None` of an `Option<Value>`. */
  datatype Value = Str(s: string) | Bool(b: bool) | Null

  /** JavaScript truthiness of a value that may be `undefined`. */
  predicate Truthy(v: Option<Value>) {
    match v
    case None => false
    case Some(Str(s)) => s != ""
    case Some(Bool(b)) => b
    case Some(Null) => false
  }

  /** JavaScript truthiness of a string that may be `undefined`. */
  predicate TruthyString(o: Option<string>) {
    o.Some? && o.value != ""
  }

  /** The key JavaScript uses when an object is indexed with a string that may
      be `undefined`: `obj[undefined]` reads the property named "undefined". */
  function Key(o: Option<string>): string {
    if o.Some? then o.value else "undefined"
  }

  /** `obj[key]`: the value stored under a key, or `undefined`. */
  function Lookup<V>(m: map<string, V>, key: string): (r: Option<V>)
    ensures r.Some? <==> key in m
    ensures r.Some? ==> r.value == m[key]
  {
    if key in m then Some(m[key]) else None
  }

  /** One own property of a JavaScript object. */
  datatype Entry<V> = Entry(key: string, val: V)

  /** A JavaScript object used as a dictionary: its own properties in
      iteration order (string keys keep the order they were first set in). */
  type Dict<V> = seq<Entry<V>>

  predicate KeysDistinct<V>(d: Dict<V>) {
    forall i, j :: 0 <= i < j < |d| ==> d[i].key != d[j].key
  }

  /** The names of the properties of an object. */
  function KeySet<V>(d: Dict<V>): set<string>
    decreases |d|
  {
    if d == [] then {} else {d[0].key} + KeySet(d[1..])
  }

  /** A name is a property of an object exactly when some entry carries it. */
  lemma {:induction false} KeySetMembers<V>(d: Dict<V>, k: string)
    ensures k in KeySet(d) <==> exists i :: 0 <= i < |d| && d[i].key == k
    decreases |d|
  {
    if d != [] {
      KeySetMembers(d[1..], k);
      if k in KeySet(d[1..]) {
        var i :| 0 <= i < |d[1..]| && d[1..][i].key == k;
        assert d[i + 1].key == k;
      }
      if exists i :: 0 <= i < |d| && d[i].key == k {
        var i :| 0 <= i < |d| && d[i].key == k;
        if i > 0 { assert d[1..][i - 1].key == k; }
      }
    }
  }

  /** `obj[key]`: the value of the first property named `key`, or `undefined`. */
  function Get<V>(d: Dict<V>, key: string): (r: Option<V>)
    ensures r.None? <==> key !in KeySet(d)
    decreases |d|
  {
    if d == [] then None
    else if d[0].key == key then Some(d[0].val)
    else Get(d[1..], key)
  }

  /** In an object whose keys are distinct, the entry at `i` is what `Get` finds. */
  lemma {:induction false} GetAt<V>(d: Dict<V>, i: nat)
    requires KeysDistinct(d)
    requires i < |d|
    ensures Get(d, d[i].key) == Some(d[i].val)
    decreases i
  {
    if i > 0 {
      GetAt(d[1..], i - 1);
    }
  }

  /** What `Get` finds is the value of an entry with that key. */
  lemma {:induction false} GetSome<V>(d: Dict<V>, key: string)
    requires Get(d, key).Some?
    ensures exists i :: 0 <= i < |d| && d[i] == Entry(key, Get(d, key).value)
    decreases |d|
  {
    if d[0].key != key {
      GetSome(d[1..], key);
      var i :| 0 <= i < |d[1..]| && d[1..][i] == Entry(key, Get(d, key).value);
      assert d[i + 1] == d[1..][i];
    }
  }

  /** `{ ...obj, [key]: v }`: an existing property is overwritten where it
      stands, a new one is added at the end. */
  function Put<V>(d: Dict<V>, key: string, v: V): (r: Dict<V>)
    ensures Get(r, key) == Some(v)
    ensures forall k :: k != key ==> Get(r, k) == Get(d, k)
    ensures KeySet(r) == KeySet(d) + {key}
    ensures |r| == if key in KeySet(d) then |d| else |d| + 1
    decreases |d|
  {
    if d == [] then [Entry(key, v)]
    else if d[0].key == key then
      var r := [Entry(key, v)] + d[1..];
      assert r[1..] == d[1..];
      r
    else
      var r := [d[0]] + Put(d[1..], key, v);
      assert r[1..] == Put(d[1..], key, v);
      r
  }

  /** `Put` keeps the keys of an object distinct. */
  lemma {:induction false} PutKeysDistinct<V>(d: Dict<V>, key: string, v: V)
    requires KeysDistinct(d)
    ensures KeysDistinct(Put(d, key, v))
    decreases |d|
  {
    if d != [] && d[0].key != key {
      PutKeysDistinct(d[1..], key, v);
      var r := Put(d, key, v);
      var rest := Put(d[1..], key, v);
      assert r == [d[0]] + rest;
      forall j | 1 <= j < |r| ensures r[0].key != r[j].key {
        var k := r[j].key;
        assert rest[j - 1].key == k;
        KeySetMembers(rest, k);
        if k != key {
          KeySetMembers(d[1..], k);
          var i :| 0 <= i < |d[1..]| && d[1..][i].key == k;
          assert d[i + 1].key == k;
        }
      }
      forall i, j | 1 <= i < j < |r| ensures r[i].key != r[j].key {
        assert r[i] == rest[i - 1] && r[j] == rest[j - 1];
      }
    } else if d != [] {
      var r := Put(d, key, v);
      assert r == [Entry(key, v)] + d[1..];
      forall i, j | 0 <= i < j < |r| ensures r[i].key != r[j].key {
        assert r[j].key == d[j].key;
      }
    }
  }

  /** The object that a `forEach` loop builds from `{}` when, for each element
      `x` in turn, it assigns `obj[e.key] = e.val` if `f(x)` is `Some(e)` and
      skips `x` otherwise. */
  function AssignAll<T, V>(xs: seq<T>, f: T -> Option<Entry<V>>): Dict<V>
    decreases |xs|
  {
    if xs == [] then []
    else
      var d := AssignAll(xs[..|xs| - 1], f);
      match f(xs[|xs| - 1])
      case Some(e) => Put(d, e.key, e.val)
      case None => d
  }

  /** `f` makes `x` assign the property `k`. */
  predicate Assigns<T, V>(f: T -> Option<Entry<V>>, x: T, k: string) {
    f(x).Some? && f(x).value.key == k
  }

  /** The last element decides a property it assigns; otherwise the
      property is whatever the elements before it made it. */
  lemma AssignAllLastGet<T, V>(xs: seq<T>, f: T -> Option<Entry<V>>, k: string)
    requires xs != []
    ensures Get(AssignAll(xs, f), k) ==
      if Assigns(f, xs[|xs| - 1], k) then Some(f(xs[|xs| - 1]).value.val)
      else Get(AssignAll(xs[..|xs| - 1], f), k)
  {
  }

  /** A property is absent exactly when no element assigns it. */
  lemma {:induction false} AssignAllAbsent<T, V>(xs: seq<T>, f: T -> Option<Entry<V>>, k: string)
    ensures Get(AssignAll(xs, f), k).None? <==> forall i :: 0 <= i < |xs| ==> !Assigns(f, xs[i], k)
    decreases |xs|
  {
    if xs != [] {
      var n := |xs| - 1;
      var init := xs[..n];
      AssignAllAbsent(init, f, k);
      AssignAllLastGet(xs, f, k);
      assert forall i :: 0 <= i < n ==> init[i] == xs[i];
    }
  }

  /** A present property holds the value the last element assigning it
      gives. */
  lemma {:induction false} AssignAllLast<T, V>(xs: seq<T>, f: T -> Option<Entry<V>>, k: string)
    ensures Get(AssignAll(xs, f), k).Some? ==>
      exists i :: 0 <= i < |xs| && f(xs[i]) == Some(Entry(k, Get(AssignAll(xs, f), k).value)) &&
        forall j :: i < j < |xs| ==> !Assigns(f, xs[j], k)
    decreases |xs|
  {
    if xs != [] {
      var n := |xs| - 1;
      var init := xs[..n];
      var r := Get(AssignAll(xs, f), k);
      AssignAllLastGet(xs, f, k);
      if Assigns(f, xs[n], k) {
        assert f(xs[n]) == Some(Entry(k, r.value));
      } else if r.Some? {
        AssignAllLast(init, f, k);
        var i :| 0 <= i < n && f(init[i]) == Some(Entry(k, r.value)) &&
          forall j :: i < j < n ==> !Assigns(f, init[j], k);
        assert f(xs[i]) == Some(Entry(k, r.value));
        assert forall j :: i < j < |xs| ==> !Assigns(f, xs[j], k) by {
          forall j | i < j < |xs| ensures !Assigns(f, xs[j], k) {
            if j < n {
              assert xs[j] == init[j];
            }
          }
        }
      }
    }
  }

  /** A property is present exactly when some element assigns it, and its
      value is the one the last such element assigns. */
  lemma AssignAllGet<T, V>(xs: seq<T>, f: T -> Option<Entry<V>>, k: string)
    ensures Get(AssignAll(xs, f), k).None? <==> forall i :: 0 <= i < |xs| ==> !Assigns(f, xs[i], k)
    ensures Get(AssignAll(xs, f), k).Some? ==>
      exists i :: 0 <= i < |xs| && f(xs[i]) == Some(Entry(k, Get(AssignAll(xs, f), k).value)) &&
        forall j :: i < j < |xs| ==> !Assigns(f, xs[j], k)
  {
    AssignAllAbsent(xs, f, k);
    AssignAllLast(xs, f, k);
  }

  /** The object built by `AssignAll` never has two properties of one name. */
  lemma {:induction false} AssignAllKeysDistinct<T, V>(xs: seq<T>, f: T -> Option<Entry<V>>)
    ensures KeysDistinct(AssignAll(xs, f))
    decreases |xs|
  {
    if xs != [] {
      AssignAllKeysDistinct(xs[..|xs| - 1], f);
      var e := f(xs[|xs| - 1]);
      if e.Some? {
        PutKeysDistinct(AssignAll(xs[..|xs| - 1], f), e.value.key, e.value.val);
      }
    }
  }

  /** The elements of `s` that satisfy `p`, in order: `Array.prototype.filter`. */
  function Filter<T(!new)>(s: seq<T>, p: T -> bool): (r: seq<T>)
    ensures |r| <= |s|
    decreases |s|
  {
    if s == [] then []
    else (if p(s[0]) then [s[0]] else []) + Filter(s[1..], p)
  }

  /** A filter keeps exactly the elements that pass it. */
  lemma {:induction false} FilterMembers<T(!new)>(s: seq<T>, p: T -> bool)
    ensures forall x :: x in Filter(s, p) <==> x in s && p(x)
    decreases |s|
  {
    if s != [] {
      FilterMembers(s[1..], p);
      assert s == [s[0]] + s[1..];
    }
  }

  /** Filtering a concatenation filters each part. */
  lemma {:induction false} FilterConcat<T(!new)>(s: seq<T>, t: seq<T>, p: T -> bool)
    ensures Filter(s + t, p) == Filter(s, p) + Filter(t, p)
    decreases |s|
  {
    if s == [] {
      assert s + t == t;
    } else {
      var head := if p(s[0]) then [s[0]] else [];
      assert (s + t)[0] == s[0] && (s + t)[1..] == s[1..] + t;
      assert Filter(s + t, p) == head + Filter(s[1..] + t, p);
      FilterConcat(s[1..], t, p);
      assert Filter(s, p) == head + Filter(s[1..], p);
      assert head + (Filter(s[1..], p) + Filter(t, p)) == (head + Filter(s[1..], p)) + Filter(t, p);
    }
  }

  /** A filter that every element passes keeps the whole sequence. */
  lemma {:induction false} FilterAll<T(!new)>(s: seq<T>, p: T -> bool)
    requires forall x :: x in s ==> p(x)
    ensures Filter(s, p) == s
    decreases |s|
  {
    if s != [] {
      FilterAll(s[1..], p);
    }
  }

  /** Every pair of elements, taken in order, is related by `ok`. */
  predicate Pairwise<T>(s: seq<T>, ok: (T, T) -> bool) {
    forall i, j :: 0 <= i < j < |s| ==> ok(s[i], s[j])
  }

  /** A filter keeps every pairwise relation of the sequence it filters. */
  lemma {:induction false} FilterPairwise<T(!new)>(s: seq<T>, p: T -> bool, ok: (T, T) -> bool)
    requires Pairwise(s, ok)
    ensures Pairwise(Filter(s, p), ok)
    decreases |s|
  {
    if s != [] {
      var rest := Filter(s[1..], p);
      FilterPairwise(s[1..], p, ok);
      if p(s[0]) {
        var r := [s[0]] + rest;
        forall i, j | 0 <= i < j < |r| ensures ok(r[i], r[j]) {
          if i == 0 {
            FilterMembers(s[1..], p);
            assert r[j] in s[1..];
            var k :| 0 <= k < |s[1..]| && s[1..][k] == r[j];
            assert s[k + 1] == r[j];
          } else {
            assert r[i] == rest[i - 1] && r[j] == rest[j - 1];
          }
        }
      }
    }
  }

  /** A filter that no element passes keeps nothing. */
  lemma FilterNone<T(!new)>(s: seq<T>, p: T -> bool)
    requires forall x :: x in s ==> !p(x)
    ensures Filter(s, p) == []
  {
    FilterMembers(s, p);
    if Filter(s, p) != [] {
      assert Filter(s, p)[0] in Filter(s, p);
    }
  }

  /** Splitting a sequence by two exclusive conditions and joining the parts
      keeps a symmetric pairwise relation of the sequence. */
  lemma FilterPartitionPairwise<T(!new)>(s: seq<T>, p: T -> bool, q: T -> bool, ok: (T, T) -> bool)
    requires Pairwise(s, ok)
    requires forall a, b :: ok(a, b) == ok(b, a)
    requires forall x :: !(p(x) && q(x))
    ensures Pairwise(Filter(s, p) + Filter(s, q), ok)
  {
    var l, r := Filter(s, p), Filter(s, q);
    FilterPairwise(s, p, ok);
    FilterPairwise(s, q, ok);
    FilterMembers(s, p);
    FilterMembers(s, q);
    var u := l + r;
    forall i, j | 0 <= i < j < |u| ensures ok(u[i], u[j]) {
      if j < |l| {
        assert u[i] == l[i] && u[j] == l[j];
      } else if |l| <= i {
        assert u[i] == r[i - |l|] && u[j] == r[j - |l|];
      } else {
        assert u[i] == l[i] && u[j] == r[j - |l|];
        assert u[i] in s && u[j] in s;
        var a :| 0 <= a < |s| && s[a] == u[i];
        var b :| 0 <= b < |s| && s[b] == u[j];
        assert a != b;
        if a < b { assert ok(s[a], s[b]); } else { assert ok(s[b], s[a]); }
      }
    }
  }

  predicate IsDigit(c: char) {
    '0' <= c <= '9'
  }

  predicate AllDigits(s: string) {
    forall i :: 0 <= i < |s| ==> IsDigit(s[i])
  }

  function DigitChar(d: nat): (c: char)
    requires d < 10
    ensures IsDigit(c) && c as int - '0' as int == d
  {
    ('0' as int + d) as char
  }

  /** The decimal numeral of `n`, as JavaScript's template literals print a
      non-negative integer. */
  function NatToString(n: nat): (s: string)
    ensures |s| >= 1 && AllDigits(s)
    ensures n < 10 <==> |s| == 1
    decreases n
  {
    if n < 10 then [DigitChar(n)] else NatToString(n / 10) + [DigitChar(n % 10)]
  }

  /** The number a string of decimal digits denotes. */
  function DigitsValue(s: string): nat
    requires AllDigits(s)
    decreases |s|
  {
    if s == [] then 0
    else DigitsValue(s[..|s| - 1]) * 10 + (s[|s| - 1] as int - '0' as int)
  }

  /** Reading a numeral back gives the number that was printed. */
  lemma {:induction false} DigitsValueOfNatToString(n: nat)
    ensures DigitsValue(NatToString(n)) == n
    decreases n
  {
    var s := NatToString(n);
    if n < 10 {
      assert s[..0] == [];
    } else {
      DigitsValueOfNatToString(n / 10);
      assert s[..|s| - 1] == NatToString(n / 10);
    }
  }

  /** Distinct numbers print as distinct numerals. */
  lemma NatToStringInjective(a: nat, b: nat)
    ensures NatToString(a) == NatToString(b) ==> a == b
  {
    DigitsValueOfNatToString(a);
    DigitsValueOfNatToString(b);
  }
}

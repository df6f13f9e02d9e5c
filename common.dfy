/**
 * Helpers shared by the model: an optional value, the outcome of an HTTP
 * request made by the client screens, the two query shapes the backend uses
 * on its tables (`filter_by(...).all()` and `filter_by(...).first()`, over a
 * table kept as a sequence in row order) and lower-casing of a status string.
 */
module Common {

  datatype Option<+T> = None | Some(value: T) {
    function GetOr(default: T): T {
      match this
      case Some(v) => v
      case None => default
    }
  }

  /** What a `requests` call of a client screen yields: a response with its
      status code and decoded body, or an exception raised by the call. */
  datatype HttpResult<+T> = Response(code: int, body: T) | ConnectionError {
    predicate IsOk() { Response? && code == 200 }
  }

  /** `query.filter_by(...).all()`: the rows of `s` satisfying `p`, in row order. */
  function Filter<T(!new)>(s: seq<T>, p: T -> bool): (r: seq<T>)
    ensures |r| <= |s|
    ensures forall x :: x in r <==> x in s && p(x)
  {
    if s == [] then []
    else if p(s[0]) then [s[0]] + Filter(s[1..], p)
    else Filter(s[1..], p)
  }

  /** Filtering a concatenation filters each part: the kept rows stay in the
      order of the table. */
  lemma {:induction false} FilterAppend<T(!new)>(a: seq<T>, b: seq<T>, p: T -> bool)
    ensures Filter(a + b, p) == Filter(a, p) + Filter(b, p)
  {
    if a == [] {
      assert a + b == b;
    } else {
      assert (a + b)[0] == a[0];
      assert (a + b)[1..] == a[1..] + b;
      FilterAppend(a[1..], b, p);
    }
  }

  /** A row is either kept or dropped: the two complementary filters share out
      the whole table. */
  lemma {:induction false} FilterComplement<T(!new)>(s: seq<T>, p: T -> bool, q: T -> bool)
    requires forall x :: q(x) == !p(x)
    ensures |Filter(s, p)| + |Filter(s, q)| == |s|
  {
    if s != [] {
      FilterComplement(s[1..], p, q);
    }
  }

  /** Filtering a table without repeated rows yields no repeated rows. */
  lemma {:induction false} FilterDistinct<T(!new)>(s: seq<T>, p: T -> bool)
    requires forall i, j :: 0 <= i < j < |s| ==> s[i] != s[j]
    ensures forall i, j :: 0 <= i < j < |Filter(s, p)| ==> Filter(s, p)[i] != Filter(s, p)[j]
  {
    if s != [] {
      FilterDistinct(s[1..], p);
      assert s[0] !in s[1..];
    }
  }

  /** A filter every row passes keeps the table as it is. */
  lemma {:induction false} FilterAll<T(!new)>(s: seq<T>, p: T -> bool)
    requires forall x :: x in s ==> p(x)
    ensures Filter(s, p) == s
  {
    if s != [] {
      assert forall x :: x in s[1..] ==> x in s;
      FilterAll(s[1..], p);
    }
  }

  /** `key` grows strictly along `s`. */
  ghost predicate Increasing<T>(s: seq<T>, key: T -> int) {
    forall i, j :: 0 <= i < j < |s| ==> key(s[i]) < key(s[j])
  }

  /** A filter keeps the rows in table order: when a key grows strictly
      along the table, it grows strictly along the kept rows. */
  lemma {:induction false} FilterKeepsIncreasing<T(!new)>(s: seq<T>, p: T -> bool, key: T -> int)
    ensures Increasing(s, key) ==> Increasing(Filter(s, p), key)
  {
    if s != [] && Increasing(s, key) {
      var tail := s[1..];
      assert Increasing(tail, key) by {
        forall i, j | 0 <= i < j < |tail| ensures key(tail[i]) < key(tail[j]) {
          assert tail[i] == s[i + 1] && tail[j] == s[j + 1];
        }
      }
      FilterKeepsIncreasing(tail, p, key);
      if p(s[0]) {
        ConsIncreasing(s[0], Filter(tail, p), tail, key);
      }
    }
  }

  /** Putting a row in front of rows taken from a table whose keys are all
      above its own keeps the order. */
  lemma ConsIncreasing<T>(x: T, rest: seq<T>, tail: seq<T>, key: T -> int)
    requires Increasing([x] + tail, key) && Increasing(rest, key)
    requires forall y :: y in rest ==> y in tail
    ensures Increasing([x] + rest, key)
  {
    forall y | y in rest ensures key(x) < key(y) {
      var j :| 0 <= j < |tail| && tail[j] == y;
      var xs := [x] + tail;
      assert xs[0] == x && xs[j + 1] == y;
      assert key(xs[0]) < key(xs[j + 1]);
    }
    var r := [x] + rest;
    forall i, j | 0 <= i < j < |r| ensures key(r[i]) < key(r[j]) {
      assert r[j] == rest[j - 1] && r[j] in rest;
      if i > 0 {
        assert r[i] == rest[i - 1];
      }
    }
  }

  /** Two tables of equal length whose rows pass their filters at the same
      positions keep the same number of rows. */
  lemma {:induction false} FilterSameCount<T(!new), U(!new)>(s: seq<T>, p: T -> bool, t: seq<U>, q: U -> bool)
    requires |s| == |t|
    requires forall k :: 0 <= k < |s| ==> (p(s[k]) <==> q(t[k]))
    ensures |Filter(s, p)| == |Filter(t, q)|
  {
    if s != [] {
      assert p(s[0]) <==> q(t[0]);
      FilterSameCount(s[1..], p, t[1..], q);
    }
  }

  /** `query.filter_by(...).first()`: the position of the first row of `s`
      satisfying `p`, or None when no row does. */
  function FindFirst<T(!new)>(s: seq<T>, p: T -> bool): (r: Option<nat>)
    ensures r.Some? ==> r.value < |s| && p(s[r.value])
    ensures r.Some? ==> forall j :: 0 <= j < r.value ==> !p(s[j])
    ensures r.None? <==> forall x :: x in s ==> !p(x)
  {
    if s == [] then None
    else if p(s[0]) then Some(0)
    else match FindFirst(s[1..], p)
      case None => None
      case Some(k) => Some(k + 1)
  }

  /** Appending rows never changes which row is found first, once one is. */
  lemma {:induction false} FindFirstAppend<T(!new)>(a: seq<T>, b: seq<T>, p: T -> bool)
    requires FindFirst(a, p).Some?
    ensures FindFirst(a + b, p) == FindFirst(a, p)
  {
    var k := FindFirst(a, p).value;
    var r := FindFirst(a + b, p);
    assert p((a + b)[k]);
    assert forall j :: 0 <= j < k ==> (a + b)[j] == a[j];
  }

  predicate IsUpper(c: char) { 'A' <= c <= 'Z' }

  /** No character of `s` is an upper-case ASCII letter. */
  predicate IsLower(s: string) {
    forall k :: 0 <= k < |s| ==> !IsUpper(s[k])
  }

  function LowerChar(c: char): char {
    if IsUpper(c) then (c as int + 32) as char else c
  }

  /** Python's `str.lower()`, restricted to the ASCII letters. */
  function Lower(s: string): (r: string)
    ensures |r| == |s| && IsLower(r)
    ensures forall k :: 0 <= k < |s| && !IsUpper(s[k]) ==> r[k] == s[k]
    ensures forall k :: 0 <= k < |s| && IsUpper(s[k]) ==> r[k] as int == s[k] as int + 32
    ensures IsLower(s) ==> r == s
  {
    seq(|s|, k requires 0 <= k < |s| => LowerChar(s[k]))
  }
}

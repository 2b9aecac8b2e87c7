/** Capability values as they come out of JSON, with Python's equality and order, and the intersection of two lists. */
module Capabilities {
  // An element of a list. Python takes True for 1 and False for 0 as members of a set, so they are numbers here.
  // `Nested` stands for a list or a dictionary inside a list: it is not hashable.
  datatype Elem = Null | Num(q: real) | Str(s: string) | Nested(id: nat)

  datatype Value = List(items: seq<Elem>) | Bool(b: bool) | Scalar(e: Elem)

  type Caps = map<string, Value>

  function NumberOf(b: bool): real {
    if b then 1.0 else 0.0
  }

  // Python's ==
  predicate PyEq(x: Value, y: Value) {
    match (x, y)
    case (Bool(b), Scalar(e)) => e == Num(NumberOf(b))
    case (Scalar(e), Bool(b)) => e == Num(NumberOf(b))
    case _ => x == y
  }

  predicate SameCaps(a: Caps, b: Caps) {
    a.Keys == b.Keys && forall k :: k in a ==> PyEq(a[k], b[k])
  }

  // ---- The order `sorted` uses ----

  predicate StrLess(s: string, t: string) {
    t != [] && (s == [] || s[0] < t[0] || (s[0] == t[0] && StrLess(s[1..], t[1..])))
  }

  lemma {:induction false} StrLessTotal(s: string, t: string)
    ensures s == t || StrLess(s, t) || StrLess(t, s)
  {
    if s != [] && t != [] && s[0] == t[0] {
      StrLessTotal(s[1..], t[1..]);
      assert s == [s[0]] + s[1..] && t == [t[0]] + t[1..];
    }
  }

  lemma {:induction false} StrLessStrict(s: string, t: string)
    requires StrLess(s, t)
    ensures s != t && !StrLess(t, s)
  {
    if s != [] && s[0] == t[0] {
      StrLessStrict(s[1..], t[1..]);
    }
  }

  lemma {:induction false} StrLessTransitive(s: string, t: string, u: string)
    requires StrLess(s, t) && StrLess(t, u)
    ensures StrLess(s, u)
  {
    if s != [] && s[0] == t[0] && t[0] == u[0] {
      StrLessTransitive(s[1..], t[1..], u[1..]);
    }
  }

  function Kind(e: Elem): nat {
    match e
    case Null => 0
    case Num(_) => 1
    case Str(_) => 2
    case Nested(_) => 3
  }

  predicate Less(x: Elem, y: Elem) {
    if Kind(x) != Kind(y) then Kind(x) < Kind(y)
    else
      match x
      case Null => false
      case Num(q) => q < y.q
      case Str(s) => StrLess(s, y.s)
      case Nested(id) => id < y.id
  }

  lemma LessTotal(x: Elem, y: Elem)
    ensures x == y || Less(x, y) || Less(y, x)
  {
    if x.Str? && y.Str? {
      StrLessTotal(x.s, y.s);
    }
  }

  lemma LessStrict(x: Elem, y: Elem)
    requires Less(x, y)
    ensures x != y && !Less(y, x)
  {
    if x.Str? && y.Str? {
      StrLessStrict(x.s, y.s);
    }
  }

  lemma LessTransitive(x: Elem, y: Elem, z: Elem)
    requires Less(x, y) && Less(y, z)
    ensures Less(x, z)
  {
    if x.Str? && y.Str? && z.Str? {
      StrLessTransitive(x.s, y.s, z.s);
    }
  }

  predicate Increasing(s: seq<Elem>) {
    forall i, j :: 0 <= i < j < |s| ==> Less(s[i], s[j])
  }

  lemma HasElement(s: seq<Elem>)
    ensures s != [] ==> exists x :: x in s
  {
    if s != [] {
      assert s[0] in s;
    }
  }

  lemma NotLast(s: seq<Elem>, x: Elem)
    requires Increasing(s) && s != []
    ensures x in s[..|s| - 1] <==> x in s && x != s[|s| - 1]
  {
    hide Less;
    var m := |s| - 1;
    if x in s[..m] {
      var i :| 0 <= i < m && s[i] == x;
      LessStrict(s[i], s[m]);
    }
  }

  lemma LastIsLast(s: seq<Elem>, t: seq<Elem>)
    requires Increasing(s) && Increasing(t) && s != [] && t != [] && forall x :: x in s <==> x in t
    ensures s[|s| - 1] == t[|t| - 1]
  {
    hide Less;
    var a, b := s[|s| - 1], t[|t| - 1];
    assert a in t && b in s;
    if a != b {
      var i :| 0 <= i < |t| && t[i] == a;
      var j :| 0 <= j < |s| && s[j] == b;
      assert Less(a, b) && Less(b, a);
      LessStrict(a, b);
    }
  }

  // A strictly increasing list is determined by what is in it.
  lemma {:induction false} IncreasingUnique(s: seq<Elem>, t: seq<Elem>)
    requires Increasing(s) && Increasing(t) && forall x :: x in s <==> x in t
    ensures s == t
  {
    hide Less;
    if s == [] {
      HasElement(t);
    } else {
      assert s[0] in t;
      var m, n := |s| - 1, |t| - 1;
      LastIsLast(s, t);
      forall x ensures x in s[..m] <==> x in t[..n] {
        NotLast(s, x);
        NotLast(t, x);
      }
      IncreasingUnique(s[..m], t[..n]);
      assert s == s[..m] + [s[m]] && t == t[..n] + [t[n]];
    }
  }

  // ---- What two lists have in common, sorted ----

  function Insert(x: Elem, s: seq<Elem>): (r: seq<Elem>) {
    if s == [] then [x]
    else
      var init, last := s[..|s| - 1], s[|s| - 1];
      if x == last then s
      else if Less(last, x) then s + [x]
      else Insert(x, init) + [last]
  }

  lemma {:induction false} InsertFacts(x: Elem, s: seq<Elem>)
    requires Increasing(s)
    ensures Increasing(Insert(x, s)) && forall y :: y in Insert(x, s) <==> y in s || y == x
  {
    hide Less;
    if s != [] {
      var init, last := s[..|s| - 1], s[|s| - 1];
      assert s == init + [last];
      if Less(last, x) {
        forall i | 0 <= i < |init| ensures Less(init[i], x) {
          LessTransitive(s[i], last, x);
        }
      } else if x != last {
        LessTotal(x, last);
        InsertFacts(x, init);
        var r := Insert(x, init);
        forall i | 0 <= i < |r| ensures Less(r[i], last) {
          assert r[i] in r;
        }
      }
    }
  }

  function Common(a: seq<Elem>, b: seq<Elem>): seq<Elem> {
    if a == [] then []
    else
      var c, x := Common(a[..|a| - 1], b), a[|a| - 1];
      if x in b then Insert(x, c) else c
  }

  // The result is the sorted list without repetition of exactly what both lists contain.
  lemma {:induction false} CommonFacts(a: seq<Elem>, b: seq<Elem>)
    ensures Increasing(Common(a, b)) && forall x :: x in Common(a, b) <==> x in a && x in b
  {
    hide Less, Insert;
    if a != [] {
      var init, x := a[..|a| - 1], a[|a| - 1];
      assert a == init + [x];
      CommonFacts(init, b);
      InsertFacts(x, Common(init, b));
    }
  }

  lemma CommonCommutes(a: seq<Elem>, b: seq<Elem>)
    ensures Common(a, b) == Common(b, a)
  {
    hide Common, Less;
    CommonFacts(a, b);
    CommonFacts(b, a);
    IncreasingUnique(Common(a, b), Common(b, a));
  }

  lemma CommonAssociates(a: seq<Elem>, b: seq<Elem>, c: seq<Elem>)
    ensures Common(Common(a, b), c) == Common(a, Common(b, c))
  {
    hide Common, Less, Increasing;
    CommonFacts(a, b);
    CommonFacts(Common(a, b), c);
    CommonFacts(b, c);
    CommonFacts(a, Common(b, c));
    IncreasingUnique(Common(Common(a, b), c), Common(a, Common(b, c)));
  }

  lemma CommonOfSorted(s: seq<Elem>)
    requires Increasing(s)
    ensures Common(s, s) == s
  {
    hide Common, Less;
    CommonFacts(s, s);
    IncreasingUnique(Common(s, s), s);
  }
}

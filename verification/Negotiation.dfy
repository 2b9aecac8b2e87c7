/** `negotiate_capabilities`: what two capability dictionaries have in common, and in which sense it is a meet. */
module Negotiation {
  import opened Capabilities

  datatype KeyOutcome = Absent | Present(value: Value) | Raises

  datatype Outcome = Agreed(caps: Caps) | TypeError

  // `set` raises on an unhashable element.
  predicate Hashable(s: seq<Elem>) {
    forall i :: 0 <= i < |s| ==> !s[i].Nested?
  }

  // `sorted` can compare any two numbers and any two strings, and nothing else.
  predicate Sortable(s: seq<Elem>) {
    |s| <= 1 || (forall i :: 0 <= i < |s| ==> s[i].Num?) || (forall i :: 0 <= i < |s| ==> s[i].Str?)
  }

  // The decision for one key.
  function Meet(mine: Value, theirs: Value): KeyOutcome {
    if mine.List? && theirs.List? then
      if !Hashable(mine.items) || !Hashable(theirs.items) then Raises
      else
        var common := Common(mine.items, theirs.items);
        if common == [] then Absent
        else if !Sortable(common) then Raises
        else Present(List(common))
    else if mine.Bool? && theirs.Bool? then
      if mine.b && theirs.b then Present(Bool(true)) else Absent
    else if PyEq(mine, theirs) then Present(mine)
    else Absent
  }

  function MeetAt(mine: Caps, theirs: Caps, k: string): KeyOutcome {
    if k in mine && k in theirs then Meet(mine[k], theirs[k]) else Absent
  }

  function Negotiate(mine: Caps, theirs: Caps): Outcome {
    if exists k :: k in mine && MeetAt(mine, theirs, k).Raises? then TypeError
    else Agreed(map k | k in mine && MeetAt(mine, theirs, k).Present? :: MeetAt(mine, theirs, k).value)
  }

  method NegotiateCapabilities(mine: Caps, theirs: Caps) returns (r: Outcome)
    ensures r == Negotiate(mine, theirs)
  {
    var agreed: Caps := map[];
    var keys := mine.Keys;
    while keys != {}
      invariant keys <= mine.Keys
      invariant forall k :: k in mine && k !in keys ==> !MeetAt(mine, theirs, k).Raises?
      invariant forall k :: k in agreed <==> k in mine && k !in keys && MeetAt(mine, theirs, k).Present?
      invariant forall k :: k in agreed ==> agreed[k] == MeetAt(mine, theirs, k).value
      decreases |keys|
    {
      var key :| key in keys;
      keys := keys - {key};
      if key !in theirs {
        continue;
      }
      hide Common, Hashable, Sortable;
      var myVal, theirVal := mine[key], theirs[key];
      if myVal.List? && theirVal.List? {
        if !Hashable(myVal.items) || !Hashable(theirVal.items) {
          assert MeetAt(mine, theirs, key).Raises?;
          return TypeError;
        }
        var common := Common(myVal.items, theirVal.items);
        if common != [] {
          if !Sortable(common) {
            assert MeetAt(mine, theirs, key).Raises?;
            return TypeError;
          }
          agreed := agreed[key := List(common)];
        }
      } else if myVal.Bool? && theirVal.Bool? {
        if myVal.b && theirVal.b {
          agreed := agreed[key := Bool(true)];
        }
      } else if PyEq(myVal, theirVal) {
        agreed := agreed[key := myVal];
      }
    }
    r := Agreed(agreed);
    assert agreed == map k | k in mine && MeetAt(mine, theirs, k).Present? :: MeetAt(mine, theirs, k).value;
  }

  lemma NegotiateAt(mine: Caps, theirs: Caps, k: string)
    requires Negotiate(mine, theirs).Agreed?
    ensures var caps := Negotiate(mine, theirs).caps;
      && (k in caps <==> MeetAt(mine, theirs, k).Present?)
      && (k in caps ==> caps[k] == MeetAt(mine, theirs, k).value)
      && !MeetAt(mine, theirs, k).Raises?
  {
    hide Meet;
  }

  // ---- When it raises ----

  // Two elements that `sorted` cannot compare.
  predicate Incomparable(x: Elem, y: Elem) {
    x != y && !(x.Num? && y.Num?) && !(x.Str? && y.Str?)
  }

  // Two lists under one key that make the code raise: one holds a list or a dictionary, or two elements they share
  // cannot be compared.
  ghost predicate Clash(mine: Value, theirs: Value) {
    && mine.List? && theirs.List?
    && ((exists x :: x in mine.items + theirs.items && x.Nested?)
        || exists x, y ::
             && x in mine.items && x in theirs.items && y in mine.items && y in theirs.items
             && Incomparable(x, y))
  }

  lemma HashableMeans(s: seq<Elem>)
    ensures Hashable(s) <==> forall x :: x in s ==> !x.Nested?
  {
    if forall x :: x in s ==> !x.Nested? {
      forall i | 0 <= i < |s| ensures !s[i].Nested? {
        assert s[i] in s;
      }
    }
  }

  lemma SortableMeans(s: seq<Elem>)
    requires Increasing(s)
    ensures !Sortable(s) <==> exists x, y :: x in s && y in s && Incomparable(x, y)
  {
    hide Less;
    if !Sortable(s) {
      LessStrict(s[0], s[1]);
      assert s[0] in s && s[1] in s;
      if !Incomparable(s[0], s[1]) {
        var i :| 0 <= i < |s| && !(if s[0].Num? then s[i].Num? else s[i].Str?);
        assert s[i] in s && Incomparable(s[0], s[i]);
      }
    }
  }

  lemma EmptyIsSortable()
    ensures Sortable([])
  {
  }

  lemma MeetRaisesIff(x: Value, y: Value)
    ensures Meet(x, y).Raises? <==> Clash(x, y)
  {
    hide Common, Hashable, Sortable, Incomparable;
    if x.List? && y.List? {
      HashableMeans(x.items);
      HashableMeans(y.items);
      CommonFacts(x.items, y.items);
      SortableMeans(Common(x.items, y.items));
      EmptyIsSortable();
      assert forall e :: e in x.items + y.items <==> e in x.items || e in y.items;
    }
  }

  // Negotiation raises TypeError exactly when some key leads to such lists, whatever the other keys hold.
  lemma RaisesIff(mine: Caps, theirs: Caps)
    ensures Negotiate(mine, theirs).TypeError? <==>
            exists k :: k in mine && k in theirs && Clash(mine[k], theirs[k])
  {
    hide Meet, Clash;
    forall k | k in mine && k in theirs ensures Meet(mine[k], theirs[k]).Raises? <==> Clash(mine[k], theirs[k]) {
      MeetRaisesIff(mine[k], theirs[k]);
    }
    if k :| k in mine && k in theirs && Clash(mine[k], theirs[k]) {
      assert MeetAt(mine, theirs, k).Raises?;
    }
  }

  // ---- Commutativity ----

  predicate SameOutcome(x: Outcome, y: Outcome) {
    match (x, y)
    case (Agreed(a), Agreed(b)) => SameCaps(a, b)
    case _ => x == y
  }

  predicate SameKeyOutcome(x: KeyOutcome, y: KeyOutcome) {
    match (x, y)
    case (Present(a), Present(b)) => PyEq(a, b)
    case _ => x == y
  }

  lemma MeetCommutes(x: Value, y: Value)
    ensures SameKeyOutcome(Meet(x, y), Meet(y, x))
  {
    hide Common;
    if x.List? && y.List? {
      CommonCommutes(x.items, y.items);
    }
  }

  lemma CommutesWithoutError(a: Caps, b: Caps)
    requires forall k :: SameKeyOutcome(MeetAt(a, b, k), MeetAt(b, a, k))
    requires Negotiate(a, b).Agreed? && Negotiate(b, a).Agreed?
    ensures SameOutcome(Negotiate(a, b), Negotiate(b, a))
  {
    hide Meet, PyEq;
    forall k ensures k in Negotiate(a, b).caps <==> k in Negotiate(b, a).caps {
      NegotiateAt(a, b, k);
      NegotiateAt(b, a, k);
      assert SameKeyOutcome(MeetAt(a, b, k), MeetAt(b, a, k));
    }
    assert Negotiate(a, b).caps.Keys == Negotiate(b, a).caps.Keys;
    forall k | k in Negotiate(a, b).caps ensures PyEq(Negotiate(a, b).caps[k], Negotiate(b, a).caps[k]) {
      NegotiateAt(a, b, k);
      NegotiateAt(b, a, k);
      assert SameKeyOutcome(MeetAt(a, b, k), MeetAt(b, a, k));
    }
  }

  // For all dictionaries: both sides compute the same agreement, as Python compares dictionaries, or both raise.
  lemma Commutes(a: Caps, b: Caps)
    ensures SameOutcome(Negotiate(a, b), Negotiate(b, a))
  {
    hide Meet, PyEq;
    forall k ensures SameKeyOutcome(MeetAt(a, b, k), MeetAt(b, a, k)) {
      if k in a && k in b {
        MeetCommutes(a[k], b[k]);
      }
    }
    forall k ensures k in a && MeetAt(a, b, k).Raises? <==> k in b && MeetAt(b, a, k).Raises? {
      assert SameKeyOutcome(MeetAt(a, b, k), MeetAt(b, a, k));
    }
    if Negotiate(a, b).Agreed? && Negotiate(b, a).Agreed? {
      CommutesWithoutError(a, b);
    }
  }

  // ---- Lower bound, and the greatest ----

  // What `v` offers is allowed by `w`: a non-empty list of things `w` lists, or a value equal to `w`.
  predicate Allowed(v: Value, w: Value) {
    if v.List? && w.List? then v.items != [] && forall x :: x in v.items ==> x in w.items
    else PyEq(v, w)
  }

  lemma MeetIsLowerBound(x: Value, y: Value)
    requires Meet(x, y).Present?
    ensures Allowed(Meet(x, y).value, x) && Allowed(Meet(x, y).value, y)
  {
    hide Common;
    if x.List? && y.List? {
      CommonFacts(x.items, y.items);
    }
  }

  // Every agreed entry is allowed by both sides.
  lemma AgreedIsAllowedByBoth(a: Caps, b: Caps, k: string)
    requires Negotiate(a, b).Agreed? && k in Negotiate(a, b).caps
    ensures k in a && k in b
    ensures Allowed(Negotiate(a, b).caps[k], a[k]) && Allowed(Negotiate(a, b).caps[k], b[k])
  {
    hide Meet, Allowed;
    NegotiateAt(a, b, k);
    MeetIsLowerBound(a[k], b[k]);
  }

  lemma MeetIsGreatest(v: Value, x: Value, y: Value)
    requires Allowed(v, x) && Allowed(v, y) && !Meet(x, y).Raises?
    ensures Meet(x, y).Present? && Allowed(v, Meet(x, y).value) <==> !(x == Bool(false) && y == Bool(false))
  {
    hide Common;
    if x.List? && y.List? {
      CommonFacts(x.items, y.items);
      HasElement(v.items);
    }
  }

  // And nothing that both sides allow is left out, or agreed to more narrowly than it could be: anything allowed by
  // both is allowed by the agreement, except where both sides say False.
  lemma AgreedIsGreatest(a: Caps, b: Caps, k: string, v: Value)
    requires Negotiate(a, b).Agreed? && k in a && k in b && Allowed(v, a[k]) && Allowed(v, b[k])
    ensures var caps := Negotiate(a, b).caps;
      k in caps && Allowed(v, caps[k]) <==> !(a[k] == Bool(false) && b[k] == Bool(false))
  {
    hide Meet, Allowed;
    NegotiateAt(a, b, k);
    MeetIsGreatest(v, a[k], b[k]);
  }

  // ---- When it raises ----

  // Lists of numbers, or of strings.
  predicate Plain(v: Value) {
    v.List? ==> (forall i :: 0 <= i < |v.items| ==> v.items[i].Num?) || (forall i :: 0 <= i < |v.items| ==> v.items[i].Str?)
  }

  predicate PlainCaps(c: Caps) {
    forall k :: k in c ==> Plain(c[k])
  }

  lemma PlainMeets(x: Value, y: Value)
    requires Plain(x) && Plain(y)
    ensures !Meet(x, y).Raises? && (Meet(x, y).Present? ==> Plain(Meet(x, y).value))
  {
    hide Common;
    if x.List? && y.List? {
      CommonFacts(x.items, y.items);
      var c := Common(x.items, y.items);
      forall i | 0 <= i < |c| ensures c[i] in x.items {
        assert c[i] in c;
      }
    }
  }

  // Dictionaries whose lists do not mix element types never raise, and the agreement is one of them.
  lemma PlainAgrees(a: Caps, b: Caps)
    requires PlainCaps(a) && PlainCaps(b)
    ensures Negotiate(a, b).Agreed? && PlainCaps(Negotiate(a, b).caps)
  {
    hide Meet, Plain;
    forall k ensures !MeetAt(a, b, k).Raises? && (MeetAt(a, b, k).Present? ==> Plain(MeetAt(a, b, k).value)) {
      if k in a && k in b {
        PlainMeets(a[k], b[k]);
      }
    }
  }

  // ---- Idempotence on results ----

  lemma HashableCommon(a: seq<Elem>, b: seq<Elem>)
    requires Hashable(a)
    ensures Hashable(Common(a, b))
  {
    hide Common, Less;
    CommonFacts(a, b);
    var c := Common(a, b);
    forall i | 0 <= i < |c| ensures !c[i].Nested? {
      assert c[i] in c;
    }
  }

  lemma MeetAgain(x: Value, y: Value)
    requires Meet(x, y).Present?
    ensures var v := Meet(x, y).value;
      Meet(v, v) == Present(v) <==> !(x == Bool(false) && y == Scalar(Num(0.0)))
    ensures var v := Meet(x, y).value; !Meet(v, v).Raises?
  {
    hide Common;
    if x.List? && y.List? {
      CommonFacts(x.items, y.items);
      var c := Common(x.items, y.items);
      CommonOfSorted(c);
      HashableCommon(x.items, y.items);
    }
  }

  // Where one side says False and the other the number 0, Python finds them equal.
  predicate FalseMeetsZero(a: Caps, b: Caps, k: string) {
    k in a && k in b && a[k] == Bool(false) && b[k] == Scalar(Num(0.0))
  }

  lemma FalseMeetsZeroIsPresent(a: Caps, b: Caps, k: string)
    ensures FalseMeetsZero(a, b, k) ==> MeetAt(a, b, k).Present?
  {
  }

  lemma AgreedAgain(r: Caps)
    requires forall k :: !MeetAt(r, r, k).Raises?
    ensures Negotiate(r, r) == Agreed(r) <==> forall k :: k in r ==> MeetAt(r, r, k) == Present(r[k])
  {
    hide Meet;
    if forall k :: k in r ==> MeetAt(r, r, k) == Present(r[k]) {
      assert Negotiate(r, r).caps == r;
    }
    if Negotiate(r, r) == Agreed(r) {
      forall k | k in r ensures MeetAt(r, r, k) == Present(r[k]) {
        NegotiateAt(r, r, k);
      }
    }
  }

  // Negotiating an agreement with itself gives it back, exactly when no False of `mine` met a 0.
  lemma IdempotentIff(a: Caps, b: Caps)
    requires Negotiate(a, b).Agreed?
    ensures var r := Negotiate(a, b).caps;
      Negotiate(r, r) == Agreed(r) <==> forall k :: !FalseMeetsZero(a, b, k)
  {
    hide Meet;
    var r := Negotiate(a, b).caps;
    forall k
      ensures k in r ==> (MeetAt(r, r, k) == Present(r[k]) <==> !FalseMeetsZero(a, b, k)) && !MeetAt(r, r, k).Raises?
      ensures FalseMeetsZero(a, b, k) ==> k in r
    {
      NegotiateAt(a, b, k);
      if k in r {
        MeetAgain(a[k], b[k]);
      }
      FalseMeetsZeroIsPresent(a, b, k);
    }
    AgreedAgain(r);
  }

  // For instance: False against 0 agrees on False, and False against False agrees on nothing.
  lemma FalseAgainstZero(key: string)
    ensures var r := Negotiate(map[key := Bool(false)], map[key := Scalar(Num(0.0))]);
      r == Agreed(map[key := Bool(false)]) && Negotiate(r.caps, r.caps) == Agreed(map[])
  {
    var a: Caps, b: Caps := map[key := Bool(false)], map[key := Scalar(Num(0.0))];
    assert MeetAt(a, b, key) == Present(Bool(false)) && MeetAt(a, a, key) == Absent;
    assert Negotiate(a, b).caps == a;
    assert Negotiate(a, a).caps == map[];
  }

  // ---- Associativity ----

  // The decision for a key that may have been dropped before.
  function MeetLeft(x: KeyOutcome, z: Value): KeyOutcome {
    if x.Present? then Meet(x.value, z) else x
  }

  function MeetRight(x: Value, z: KeyOutcome): KeyOutcome {
    if z.Present? then Meet(x, z.value) else z
  }

  // One False and one 0 before a last False, in either order.
  predicate FalseZeroFalse(x: Value, y: Value, z: Value) {
    && z == Bool(false)
    && ((x == Bool(false) && y == Scalar(Num(0.0))) || (x == Scalar(Num(0.0)) && y == Bool(false)))
  }

  lemma ListsAssociate(x: Value, y: Value, z: Value)
    requires x.List? && y.List? && z.List? && Plain(x) && Plain(y) && Plain(z)
    ensures MeetLeft(Meet(x, y), z) == MeetRight(x, Meet(y, z))
  {
    PlainMeets(x, y);
    PlainMeets(y, z);
    hide Common;
    var xy, yz := Common(x.items, y.items), Common(y.items, z.items);
    CommonAssociates(x.items, y.items, z.items);
    CommonFacts(xy, z.items);
    CommonFacts(x.items, yz);
    if xy != [] { PlainMeets(List(xy), z); }
    if yz != [] { PlainMeets(x, List(yz)); }
    HasElement(Common(xy, z.items));
    HasElement(Common(x.items, yz));
  }

  lemma MeetAssociates(x: Value, y: Value, z: Value)
    requires Plain(x) && Plain(y) && Plain(z)
    ensures SameKeyOutcome(MeetLeft(Meet(x, y), z), MeetRight(x, Meet(y, z))) <==> !FalseZeroFalse(x, y, z)
  {
    if x.List? && y.List? && z.List? {
      ListsAssociate(x, y, z);
    } else {
      hide Common, Hashable, Sortable;
      PlainMeets(x, y);
      PlainMeets(y, z);
    }
  }

  function NegotiateLeft(a: Caps, b: Caps, c: Caps): Outcome
    requires Negotiate(a, b).Agreed?
  {
    Negotiate(Negotiate(a, b).caps, c)
  }

  function NegotiateRight(a: Caps, b: Caps, c: Caps): Outcome
    requires Negotiate(b, c).Agreed?
  {
    Negotiate(a, Negotiate(b, c).caps)
  }

  predicate FalseZeroFalseAt(a: Caps, b: Caps, c: Caps, k: string) {
    k in a && k in b && k in c && FalseZeroFalse(a[k], b[k], c[k])
  }

  lemma AssociatesAt(a: Caps, b: Caps, c: Caps, k: string)
    requires PlainCaps(a) && PlainCaps(b) && PlainCaps(c)
    requires Negotiate(a, b).Agreed? && Negotiate(b, c).Agreed?
    ensures SameKeyOutcome(MeetAt(Negotiate(a, b).caps, c, k), MeetAt(a, Negotiate(b, c).caps, k))
       <==> !FalseZeroFalseAt(a, b, c, k)
  {
    hide Meet, Plain, PyEq;
    NegotiateAt(a, b, k);
    NegotiateAt(b, c, k);
    if k in a && k in b && k in c {
      MeetAssociates(a[k], b[k], c[k]);
    }
  }

  lemma SameIsPerKey(a: Caps, b: Caps, c: Caps, d: Caps)
    requires Negotiate(a, b).Agreed? && Negotiate(c, d).Agreed?
    ensures SameOutcome(Negotiate(a, b), Negotiate(c, d)) <==> forall k :: SameKeyOutcome(MeetAt(a, b, k), MeetAt(c, d, k))
  {
    hide Meet, PyEq;
    var x, y := Negotiate(a, b).caps, Negotiate(c, d).caps;
    forall k
      ensures SameKeyOutcome(MeetAt(a, b, k), MeetAt(c, d, k))
         <==> (k in x <==> k in y) && (k in x && k in y ==> PyEq(x[k], y[k]))
    {
      NegotiateAt(a, b, k);
      NegotiateAt(c, d, k);
    }
    if SameOutcome(Negotiate(a, b), Negotiate(c, d)) {
      forall k ensures k in x <==> k in y {
        assert k in x.Keys <==> k in y.Keys;
      }
    } else {
      assert x.Keys != y.Keys ==> exists k :: (k in x) != (k in y);
    }
  }

  // Three sides reach the same agreement in either grouping, exactly when no key has one False and one 0 meeting a
  // False.
  lemma AssociatesIff(a: Caps, b: Caps, c: Caps)
    requires PlainCaps(a) && PlainCaps(b) && PlainCaps(c)
    ensures Negotiate(a, b).Agreed? && Negotiate(b, c).Agreed?
    ensures SameOutcome(NegotiateLeft(a, b, c), NegotiateRight(a, b, c)) <==> forall k :: !FalseZeroFalseAt(a, b, c, k)
  {
    hide Meet, Plain, PyEq;
    PlainAgrees(a, b);
    PlainAgrees(b, c);
    var ab, bc := Negotiate(a, b).caps, Negotiate(b, c).caps;
    PlainAgrees(ab, c);
    PlainAgrees(a, bc);
    forall k
      ensures SameKeyOutcome(MeetAt(ab, c, k), MeetAt(a, bc, k)) <==> !FalseZeroFalseAt(a, b, c, k)
    {
      AssociatesAt(a, b, c, k);
    }
    SameIsPerKey(ab, c, a, bc);
  }
}

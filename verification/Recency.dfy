/**
 Insertion-ordered dictionaries (`OrderedDict`): the key order and the contents, and the law of the
 bounded stores that forget their oldest key.
 */
module Recency {
  import opened Ordering

  // ---------- Key orders ----------

  function Without(order: seq<string>, d: string): (r: seq<string>)
    ensures d !in r
    ensures forall e :: e in r <==> e in order && e != d
    ensures |r| <= |order|
    ensures d !in order ==> r == order
  {
    if order == [] then []
    else if order[0] == d then Without(order[1..], d)
    else [order[0]] + Without(order[1..], d)
  }

  lemma {:induction false} WithoutNoRepeats(order: seq<string>, d: string)
    requires NoRepeats(order)
    ensures NoRepeats(Without(order, d))
    ensures d in order ==> |Without(order, d)| == |order| - 1
  {
    if order != [] {
      WithoutNoRepeats(order[1..], d);
      if order[0] != d {
        assert order[0] !in order[1..];
      }
    }
  }

  /** The keys that come after the first `d`. */
  ghost function After(order: seq<string>, d: string): (r: seq<string>)
    ensures |r| <= |order|
    ensures d in order ==> |r| < |order|
    ensures forall e | e in r :: e in order
  {
    if order == [] then []
    else if order[0] == d then order[1..]
    else After(order[1..], d)
  }

  lemma {:induction false} AfterConcat(order: seq<string>, x: string, d: string)
    requires d in order
    ensures After(order + [x], d) == After(order, d) + [x]
  {
    if order[0] == d {
      assert (order + [x])[1..] == order[1..] + [x];
    } else {
      AfterConcat(order[1..], x, d);
      assert (order + [x])[1..] == order[1..] + [x];
    }
  }

  lemma {:induction false} AfterWithout(order: seq<string>, x: string, d: string)
    requires NoRepeats(order) && x != d
    ensures After(Without(order, x), d) == Without(After(order, d), x)
  {
    if order != [] && order[0] != d {
      AfterWithout(order[1..], x, d);
      if order[0] != x {
        var r := Without(order, x);
        assert r[1..] == Without(order[1..], x);
      }
    } else if order != [] {
      assert Without(order, x)[1..] == Without(order[1..], x);
    }
  }

  lemma {:induction false} AfterNoRepeats(order: seq<string>, d: string)
    requires NoRepeats(order)
    ensures NoRepeats(After(order, d)) && d !in After(order, d)
  {
    if order != [] && order[0] != d {
      AfterNoRepeats(order[1..], d);
    }
  }

  /** Dropping `n` oldest keys keeps a key exactly when fewer keys follow it than remain. */
  lemma {:induction false} AfterDrop(order: seq<string>, n: nat, d: string)
    requires NoRepeats(order) && n <= |order| && d in order
    ensures d in order[n..] <==> |After(order, d)| < |order| - n
    ensures d in order[n..] ==> After(order[n..], d) == After(order, d)
  {
    if n > 0 {
      assert order[n..] == order[1..][n - 1..];
      if order[0] == d {
        assert d !in order[1..];
        assert forall e | e in order[n..] :: e in order[1..];
      } else {
        AfterDrop(order[1..], n - 1, d);
      }
    } else {
      assert order[0..] == order;
    }
  }

  // ---------- The bounded store ----------

  /** `pop` then insert at the end. */
  function Touch(order: seq<string>, d: string): (r: seq<string>)
    ensures r != [] && r[|r| - 1] == d
  {
    Without(order, d) + [d]
  }

  /** `popitem(last=False)` while there are more than `max` keys. */
  function Trim(order: seq<string>, max: nat): (r: seq<string>)
    ensures |r| <= max
    ensures r == if |order| <= max then order else order[|order| - max..]
    decreases |order|
  {
    if |order| <= max then order else Trim(order[1..], max)
  }

  lemma TouchTrim(order: seq<string>, d: string, max: nat)
    requires NoRepeats(order) && |order| <= max && max > 0
    ensures NoRepeats(Touch(order, d)) && |Touch(order, d)| <= max + 1
    ensures NoRepeats(Trim(Touch(order, d), max)) && d in Trim(Touch(order, d), max)
  {
    WithoutNoRepeats(order, d);
  }

  /** The order after remembering `entered` one after another in a store bounded by `max`. */
  function Remembered(entered: seq<string>, max: nat): seq<string> {
    if entered == [] then []
    else Trim(Touch(Remembered(entered[..|entered| - 1], max), entered[|entered| - 1]), max)
  }

  /** The keys other than `d` that entered since `d` last did. */
  ghost function Since(entered: seq<string>, d: string): (s: set<string>)
    ensures d !in s
  {
    if entered == [] || entered[|entered| - 1] == d then {}
    else Since(entered[..|entered| - 1], d) + {entered[|entered| - 1]}
  }

  ghost function Elements(order: seq<string>): set<string> {
    set d | d in order
  }

  lemma {:induction false} ElementsCount(order: seq<string>)
    requires NoRepeats(order)
    ensures |Elements(order)| == |order|
  {
    if order != [] {
      ElementsCount(order[1..]);
      assert Elements(order) == Elements(order[1..]) + {order[0]};
    }
  }

  /** What a store knows about one key: the keys behind it are those that entered since it did. */
  ghost predicate Tracks(order: seq<string>, entered: seq<string>, d: string, max: nat) {
    && (d in order <==> d in entered && |Since(entered, d)| < max)
    && (d in order ==> Elements(After(order, d)) == Since(entered, d))
  }

  lemma RememberedStep(entered: seq<string>, max: nat)
    requires entered != []
    ensures Remembered(entered, max)
            == Trim(Touch(Remembered(entered[..|entered| - 1], max), entered[|entered| - 1]), max)
  {
    hide Trim, Touch;
  }

  lemma {:induction false} RememberedTracks(entered: seq<string>, d: string, max: nat)
    requires max > 0
    ensures NoRepeats(Remembered(entered, max)) && |Remembered(entered, max)| <= max
    ensures Tracks(Remembered(entered, max), entered, d, max)
  {
    hide *;
    if entered == [] {
      NothingTracked(d, max);
    } else {
      var front, last := entered[..|entered| - 1], entered[|entered| - 1];
      var order := Remembered(front, max);
      assert entered == front + [last];
      RememberedStep(entered, max);
      RememberedTracks(front, d, max);
      TouchTrim(order, last, max);
      TrackStep(order, front, last, d, max);
    }
  }

  lemma NothingTracked(d: string, max: nat)
    ensures Remembered([], max) == [] && NoRepeats(Remembered([], max)) && Tracks(Remembered([], max), [], d, max)
  {
  }

  /** A bounded store still holds `d` exactly when fewer than `max` other keys entered since `d` last did. */
  lemma BoundedMemory(entered: seq<string>, d: string, max: nat)
    requires max > 0
    ensures NoRepeats(Remembered(entered, max)) && |Remembered(entered, max)| <= max
    ensures d in Remembered(entered, max) <==> d in entered && |Since(entered, d)| < max
  {
    hide Remembered, NoRepeats, Since;
    RememberedTracks(entered, d, max);
  }

  lemma TrackStep(order: seq<string>, before: seq<string>, x: string, d: string, max: nat)
    requires max > 0 && NoRepeats(order) && |order| <= max && Tracks(order, before, d, max)
    ensures Tracks(Trim(Touch(order, x), max), before + [x], d, max)
  {
    assert (before + [x])[..|before|] == before;
    if d == x {
      TrackSelf(order, before, d, max);
    } else if d in order {
      TrackHeld(order, before, x, d, max);
    } else {
      TrackLost(order, before, x, d, max);
    }
  }

  lemma TrackSelf(order: seq<string>, before: seq<string>, d: string, max: nat)
    requires max > 0 && NoRepeats(order) && |order| <= max
    ensures Tracks(Trim(Touch(order, d), max), before + [d], d, max)
  {
    var touched := Touch(order, d);
    TouchTrim(order, d, max);
    AfterLast(touched, d);
    AfterDrop(touched, if |touched| <= max then 0 else |touched| - max, d);
    assert touched[0..] == touched;
  }

  lemma TrackHeld(order: seq<string>, before: seq<string>, x: string, d: string, max: nat)
    requires max > 0 && NoRepeats(order) && |order| <= max && Tracks(order, before, d, max)
    requires d != x && d in order && (before + [x])[..|before|] == before
    ensures Tracks(Trim(Touch(order, x), max), before + [x], d, max)
  {
    hide Touch, Without, Elements, After, NoRepeats;
    var touched := Touch(order, x);
    TouchTrim(order, x, max);
    FollowersAfterTouch(order, x, d);
    AfterDrop(touched, if |touched| <= max then 0 else |touched| - max, d);
    assert touched[0..] == touched;
  }

  /** Touching another key puts it among those that follow `d`. */
  lemma FollowersAfterTouch(order: seq<string>, x: string, d: string)
    requires NoRepeats(order) && d != x && d in order
    ensures var touched := Touch(order, x);
            && NoRepeats(touched) && d in touched
            && Elements(After(touched, d)) == Elements(After(order, d)) + {x}
            && |After(touched, d)| == |Elements(After(touched, d))|
  {
    var touched := Touch(order, x);
    WithoutNoRepeats(order, x);
    AfterWithout(order, x, d);
    AfterConcat(Without(order, x), x, d);
    AfterNoRepeats(touched, d);
    ElementsCount(After(touched, d));
    ElementsWithout(After(order, d), x);
    assert After(touched, d) == Without(After(order, d), x) + [x];
  }

  lemma ElementsWithout(order: seq<string>, x: string)
    ensures Elements(Without(order, x) + [x]) == Elements(order) + {x}
  {
    assert forall e :: e in Without(order, x) + [x] <==> e in order || e == x;
  }

  lemma TrackLost(order: seq<string>, before: seq<string>, x: string, d: string, max: nat)
    requires Tracks(order, before, d, max) && d != x && d !in order && (before + [x])[..|before|] == before
    ensures Tracks(Trim(Touch(order, x), max), before + [x], d, max)
  {
    var touched := Touch(order, x);
    assert d !in touched;
    assert forall e | e in Trim(touched, max) :: e in touched;
    if d in before {
      SubsetCount(Since(before, d), Since(before + [x], d));
    }
  }

  lemma {:induction false} AfterLast(order: seq<string>, d: string)
    requires NoRepeats(order) && order != [] && order[|order| - 1] == d
    ensures After(order, d) == []
  {
    if |order| > 1 {
      assert order[0] != d;
      AfterLast(order[1..], d);
    }
  }

  lemma SubsetCount(a: set<string>, b: set<string>)
    requires a <= b
    ensures |a| <= |b|
  {
    assert b == a + (b - a);
  }

  // ---------- Ordered dictionaries ----------

  datatype Store<V> = Store(order: seq<string>, values: map<string, V>) {
    ghost predicate Valid() {
      NoRepeats(order) && forall d :: d in values <==> d in order
    }

    function Pop(d: string): Store<V> {
      Store(Without(order, d), values - {d})
    }

    function PutLast(d: string, v: V): Store<V> {
      Store(Touch(order, d), values[d := v])
    }

    function PopFirst(): Store<V>
      requires order != []
    {
      Store(order[1..], values - {order[0]})
    }

    function MoveToEnd(d: string): Store<V> {
      Store(Touch(order, d), values)
    }

    function TrimTo(max: nat): Store<V>
      decreases |order|
    {
      if |order| <= max then this else PopFirst().TrimTo(max)
    }

    /** `_remember`. */
    function Remember(d: string, v: V, max: nat): Store<V> {
      PutLast(d, v).TrimTo(max)
    }
  }

  function Empty<V>(): (s: Store<V>)
    ensures s.Valid() && s.order == []
  {
    Store([], map[])
  }

  lemma PopValid<V>(s: Store<V>, d: string)
    requires s.Valid()
    ensures s.Pop(d).Valid()
    ensures |s.Pop(d).order| == if d in s.values then |s.order| - 1 else |s.order|
    ensures d !in s.Pop(d).values
    ensures forall e | e != d :: (e in s.Pop(d).values <==> e in s.values)
                                 && (e in s.values ==> s.Pop(d).values[e] == s.values[e])
  {
    WithoutNoRepeats(s.order, d);
  }

  lemma PutLastValid<V>(s: Store<V>, d: string, v: V)
    requires s.Valid()
    ensures s.PutLast(d, v).Valid()
    ensures |s.PutLast(d, v).order| == if d in s.values then |s.order| else |s.order| + 1
    ensures d !in s.values ==> s.PutLast(d, v).order == s.order + [d]
  {
    WithoutNoRepeats(s.order, d);
  }

  lemma MoveToEndValid<V>(s: Store<V>, d: string)
    requires s.Valid() && d in s.values
    ensures s.MoveToEnd(d).Valid() && |s.MoveToEnd(d).order| == |s.order|
  {
    WithoutNoRepeats(s.order, d);
  }

  lemma PopFirstValid<V>(s: Store<V>)
    requires s.Valid() && s.order != []
    ensures s.PopFirst().Valid()
  {
    assert s.order[0] !in s.order[1..];
    assert forall d :: d in s.order <==> d == s.order[0] || d in s.order[1..];
  }

  lemma {:induction false} TrimToValid<V>(s: Store<V>, max: nat)
    requires s.Valid()
    ensures s.TrimTo(max).Valid() && s.TrimTo(max).order == Trim(s.order, max)
    ensures forall d | d in s.TrimTo(max).values :: d in s.values && s.TrimTo(max).values[d] == s.values[d]
    decreases |s.order|
  {
    if |s.order| > max {
      PopFirstValid(s);
      TrimToValid(s.PopFirst(), max);
    }
  }

  lemma RememberValid<V>(s: Store<V>, d: string, v: V, max: nat)
    requires s.Valid() && |s.order| <= max && max > 0
    ensures s.Remember(d, v, max).Valid()
    ensures s.Remember(d, v, max).order == Trim(Touch(s.order, d), max)
    ensures |s.Remember(d, v, max).order| <= max
    ensures d in s.Remember(d, v, max).values && s.Remember(d, v, max).values[d] == v
    ensures forall e | e in s.Remember(d, v, max).values :: e == d || e in s.values
  {
    PutLastValid(s, d, v);
    TouchTrim(s.order, d, max);
    TrimToValid(s.PutLast(d, v), max);
  }
}

// What the modelled code does with Python lists: dict.fromkeys, and joining them.
module Lists {

  // list(dict.fromkeys(items)): the distinct elements, each where it first stands.
  function Distinct<T(==,!new)>(items: seq<T>): (r: seq<T>)
    ensures forall x :: x in r <==> x in items
    decreases |items|
  {
    if items == [] then []
    else
      var before := Distinct(items[..|items| - 1]);
      var last := items[|items| - 1];
      if last in before then before else before + [last]
  }

  function FirstAt<T(==)>(xs: seq<T>, x: T): (i: nat)
    requires x in xs
    ensures i < |xs| && xs[i] == x && forall j :: 0 <= j < i ==> xs[j] != x
  {
    if xs[0] == x then 0 else 1 + FirstAt(xs[1..], x)
  }

  // The elements of r are elements of xs, in the order in which they first stand there.
  predicate InOrder<T(==,!new)>(xs: seq<T>, r: seq<T>) {
    && (forall x :: x in r ==> x in xs)
    && forall i, j :: 0 <= i < j < |r| ==> FirstAt(xs, r[i]) < FirstAt(xs, r[j])
  }

  lemma FirstAtAppend<T>(init: seq<T>, last: T, x: T)
    requires x in init
    ensures FirstAt(init + [last], x) == FirstAt(init, x)
  {
    var xs, i := init + [last], FirstAt(init, x);
    assert xs[i] == x && forall j :: 0 <= j < i ==> xs[j] == init[j];
  }

  lemma InOrderAppend<T(!new)>(init: seq<T>, last: T, r: seq<T>)
    requires InOrder(init, r)
    ensures InOrder(init + [last], r) && (last !in init ==> InOrder(init + [last], r + [last]))
  {
    var xs := init + [last];
    forall x | x in r ensures x in xs && FirstAt(xs, x) == FirstAt(init, x) {
      FirstAtAppend(init, last, x);
    }
    if last !in init {
      assert xs[|init|] == last;
      assert FirstAt(xs, last) == |init|;
    }
  }

  // Nothing is lost, nothing is repeated, and the order is that of the first occurrences.
  lemma {:induction false} DistinctInOrder<T(!new)>(xs: seq<T>)
    ensures InOrder(xs, Distinct(xs))
    decreases |xs|
  {
    if xs != [] {
      var n := |xs| - 1;
      var init, last := xs[..n], xs[n];
      assert xs == init + [last];
      DistinctInOrder(init);
      InOrderAppend(init, last, Distinct(init));
    }
  }

  // A list without repetitions is its own.
  lemma {:induction false} DistinctTwice<T(!new)>(xs: seq<T>)
    ensures Distinct(Distinct(xs)) == Distinct(xs)
    decreases |xs|
  {
    if xs != [] {
      var n := |xs| - 1;
      var r := Distinct(xs[..n]);
      DistinctTwice(xs[..n]);
      if xs[n] !in r {
        assert (r + [xs[n]])[..|r|] == r;
      }
    }
  }

  // The position of the first element that passes; the length of the list if none does.
  function FirstWhere<T>(p: T -> bool, xs: seq<T>): (k: nat)
    ensures k <= |xs| && (k < |xs| ==> p(xs[k])) && forall j :: 0 <= j < k ==> !p(xs[j])
  {
    if xs == [] || p(xs[0]) then 0 else 1 + FirstWhere(p, xs[1..])
  }

  // Every element's answer, in order.
  function Flat<T>(f: T -> seq<T>, xs: seq<T>): seq<T> {
    if xs == [] then [] else f(xs[0]) + Flat(f, xs[1..])
  }

  lemma {:induction false} FlatMembers<T>(f: T -> seq<T>, xs: seq<T>, y: T)
    ensures y in Flat(f, xs) <==> exists x :: x in xs && y in f(x)
  {
    if xs != [] {
      var rest := xs[1..];
      FlatMembers(f, rest, y);
      assert forall x :: x in xs <==> x == xs[0] || x in rest;
    }
  }

  // What the element at i answers, taken off the front.
  lemma FlatStep<T>(f: T -> seq<T>, xs: seq<T>, i: nat, done: seq<T>)
    requires i < |xs|
    ensures done + Flat(f, xs[i..]) == done + f(xs[i]) + Flat(f, xs[i + 1..])
    ensures f(xs[i]) == [] ==> done + f(xs[i]) == done
  {
    var here := xs[i..];
    assert here[0] == xs[i] && here[1..] == xs[i + 1..];
    Associative(done, f(xs[i]), Flat(f, here[1..]));
  }

  lemma Associative<T>(a: seq<T>, b: seq<T>, c: seq<T>)
    ensures a + (b + c) == a + b + c
  {
  }
}

/**
 The order of named fields does not matter: although every `swap_remove` reorders what is left, the
 search finds the same value for each field of a type whatever the order it started from.
 */
module FieldOrder {
  import opened Wrappers
  import opened TypeRegistry
  import opened Values
  import opened ValueEncoding
  import opened ValueDecoding

  ghost predicate DistinctPairs<T>(pairs: seq<NamedValue<T>>) {
    forall i, j :: 0 <= i < j < |pairs| ==> pairs[i].name != pairs[j].name
  }

  lemma SwapRemoveAt<A>(s: seq<A>, i: nat)
    requires i < |s|
    ensures forall k :: 0 <= k < |s| - 1 ==> SwapRemove(s, i)[k] == if k == i then s[|s| - 1] else s[k]
    ensures forall x :: x in s && x != s[i] ==> x in SwapRemove(s, i)
  {
    forall x | x in s && x != s[i]
      ensures x in SwapRemove(s, i)
    {
      var k :| 0 <= k < |s| && s[k] == x;
      assert SwapRemove(s, i)[if k == |s| - 1 then i else k] == x;
    }
  }

  lemma SwapRemoveDistinct<T>(pairs: seq<NamedValue<T>>, i: nat)
    requires i < |pairs| && DistinctPairs(pairs)
    ensures DistinctPairs(SwapRemove(pairs, i))
  {
    SwapRemoveAt(pairs, i);
  }

  ghost predicate Offers<T>(pairs: seq<NamedValue<T>>, fields: seq<Field>, vs: seq<Value<T>>)
    requires AllNamed(fields) && |vs| == |fields|
  {
    forall i :: 0 <= i < |fields| ==> NamedValue(fields[i].name.value, vs[i]) in pairs
  }

  /** With distinct names the search picks exactly the value that bears each field's name. */
  lemma {:induction false} ArrangeFinds<T>(pairs: seq<NamedValue<T>>, fields: seq<Field>, vs: seq<Value<T>>)
    requires AllNamed(fields) && DistinctNames(fields) && DistinctPairs(pairs)
    requires |vs| == |fields| && Offers(pairs, fields, vs)
    ensures Arrange(pairs, fields) == Some(vs)
    decreases |fields|
  {
    if fields != [] {
      var name := fields[0].name.value;
      var first := NamedValue(name, vs[0]);
      assert first in pairs;
      var i := Position(pairs, name).value;
      assert pairs[i] == first;
      SwapRemoveAt(pairs, i);
      SwapRemoveDistinct(pairs, i);
      assert Offers(SwapRemove(pairs, i), fields[1..], vs[1..]) by {
        forall k | 0 <= k < |fields[1..]|
          ensures NamedValue(fields[1..][k].name.value, vs[1..][k]) in SwapRemove(pairs, i)
        {
          assert fields[k + 1].name != fields[0].name;
          assert NamedValue(fields[k + 1].name.value, vs[k + 1]) in pairs;
        }
      }
      ArrangeFinds(SwapRemove(pairs, i), fields[1..], vs[1..]);
      assert [vs[0]] + vs[1..] == vs;
    }
  }

  /** Whatever the names, a successful search has found each field among the values. */
  lemma {:induction false} ArrangeSound<T>(pairs: seq<NamedValue<T>>, fields: seq<Field>)
    requires Arrange(pairs, fields).Some?
    ensures AllNamed(fields) && Offers(pairs, fields, Arrange(pairs, fields).value)
    decreases |fields|
  {
    if fields != [] {
      var i := Position(pairs, fields[0].name.value).value;
      var rest := SwapRemove(pairs, i);
      ArrangeSound(rest, fields[1..]);
      SwapRemoveAt(pairs, i);
      assert forall p :: p in rest ==> p in pairs;
      var vs := Arrange(pairs, fields).value;
      forall k | 0 <= k < |fields|
        ensures fields[k].name.Some? && NamedValue(fields[k].name.value, vs[k]) in pairs
      {
        if k > 0 {
          assert fields[k] == fields[1..][k - 1] && vs[k] == Arrange(rest, fields[1..]).value[k - 1];
          assert NamedValue(fields[1..][k - 1].name.value, vs[k]) in rest;
        } else {
          assert pairs[i] == NamedValue(fields[0].name.value, vs[0]);
        }
      }
    }
  }

  lemma {:induction false} ArrangeNames<T>(pairs: seq<NamedValue<T>>, fields: seq<Field>)
    requires Arrange(pairs, fields).Some?
    ensures multiset(Names(fields)) <= multiset(PairNames(pairs))
    decreases |fields|
  {
    if fields != [] {
      var i := Position(pairs, fields[0].name.value).value;
      var rest := SwapRemove(pairs, i);
      ArrangeNames(rest, fields[1..]);
      SwapRemoveNames(pairs, i);
      hide *;
      assert multiset(Names(fields)) == multiset{fields[0].name.value} + multiset(Names(fields[1..])) by {
        NamesCons(fields);
      }
    }
  }

  lemma NamesCons(fields: seq<Field>)
    requires fields != [] && fields[0].name.Some?
    ensures multiset(Names(fields)) == multiset{fields[0].name.value} + multiset(Names(fields[1..]))
  {
    assert Names(fields) == [fields[0].name.value] + Names(fields[1..]);
  }

  lemma SwapRemoveNames<T>(pairs: seq<NamedValue<T>>, i: nat)
    requires i < |pairs|
    ensures multiset(PairNames(SwapRemove(pairs, i))) + multiset{pairs[i].name} == multiset(PairNames(pairs))
  {
    SwapRemoveMultiset(PairNames(pairs), i);
    assert PairNames(SwapRemove(pairs, i)) == SwapRemove(PairNames(pairs), i);
  }

  ghost function Names(fields: seq<Field>): (names: seq<string>)
    ensures |names| == |fields|
  {
    seq(|fields|, i requires 0 <= i < |fields| => NameOrEmpty(fields[i]))
  }

  ghost function PairNames<T>(pairs: seq<NamedValue<T>>): (names: seq<string>)
    ensures |names| == |pairs|
  {
    seq(|pairs|, i requires 0 <= i < |pairs| => pairs[i].name)
  }

  ghost predicate Distinct<A>(s: seq<A>) {
    forall i, j :: 0 <= i < j < |s| ==> s[i] != s[j]
  }

  lemma {:induction false} NoDouble<A>(s: seq<A>, x: A)
    requires Distinct(s)
    ensures multiset(s)[x] <= 1
  {
    if s != [] {
      NoDouble(s[1..], x);
      assert s == [s[0]] + s[1..];
    }
  }

  lemma Double<A>(s: seq<A>, i: nat, j: nat)
    requires i < j < |s| && s[i] == s[j]
    ensures multiset(s)[s[i]] >= 2
  {
    assert s == s[..j] + ([s[j]] + s[j + 1..]);
    assert s[i] in s[..j];
    assert multiset(s) == multiset(s[..j]) + multiset([s[j]] + s[j + 1..]);
    assert s[j] in [s[j]] + s[j + 1..];
  }

  /** Distinct fields can only be filled from as many values with distinct names. */
  lemma ArrangeDistinct<T>(pairs: seq<NamedValue<T>>, fields: seq<Field>)
    requires Arrange(pairs, fields).Some? && |pairs| == |fields| && DistinctNames(fields)
    ensures DistinctPairs(pairs)
  {
    hide Arrange;
    ArrangeSound(pairs, fields);
    ArrangeNames(pairs, fields);
    var names, theirs := Names(fields), PairNames(pairs);
    SameSize(multiset(names), multiset(theirs));
    forall i, j | 0 <= i < j < |pairs|
      ensures pairs[i].name != pairs[j].name
    {
      if theirs[i] == theirs[j] {
        Double(theirs, i, j);
        NoDouble(names, theirs[i]);
      }
    }
  }

  lemma SameSize<A>(a: multiset<A>, b: multiset<A>)
    requires a <= b && |a| == |b|
    ensures a == b
  {
    assert b == a + (b - a);
  }

  /** The search gives the same list of values for every order of the named values. */
  lemma ArrangeAnyOrder<T>(pairs: seq<NamedValue<T>>, others: seq<NamedValue<T>>, fields: seq<Field>)
    requires DistinctNames(fields) && |pairs| == |fields|
    requires multiset(pairs) == multiset(others)
    ensures Arrange(pairs, fields) == Arrange(others, fields)
  {
    assert |others| == |multiset(others)| == |multiset(pairs)| == |pairs|;
    if Arrange(pairs, fields).Some? {
      ArrangeOther(pairs, others, fields);
    } else if Arrange(others, fields).Some? {
      ArrangeOther(others, pairs, fields);
    }
  }

  lemma ArrangeOther<T>(pairs: seq<NamedValue<T>>, others: seq<NamedValue<T>>, fields: seq<Field>)
    requires DistinctNames(fields) && |pairs| == |fields|
    requires multiset(pairs) == multiset(others)
    requires Arrange(pairs, fields).Some?
    ensures Arrange(others, fields) == Arrange(pairs, fields)
  {
    ArrangeSound(pairs, fields);
    ArrangeDistinct(pairs, fields);
    forall i, j | 0 <= i < j < |others|
      ensures others[i].name != others[j].name
    {
      PermutedDistinct(pairs, others, i, j);
    }
    assert forall p :: p in pairs <==> p in multiset(others);
    ArrangeFinds(others, fields, Arrange(pairs, fields).value);
  }

  lemma PermutedDistinct<T>(pairs: seq<NamedValue<T>>, others: seq<NamedValue<T>>, i: nat, j: nat)
    requires DistinctPairs(pairs) && multiset(pairs) == multiset(others) && i < j < |others|
    ensures others[i].name != others[j].name
  {
    assert others[i] in multiset(pairs) && others[j] in multiset(pairs);
    if others[i].name == others[j].name {
      Double(others, i, j);
      NoDouble(pairs, others[i]);
    }
  }

  /** Encoding a composite does not depend on the order of its named fields. */
  lemma EncodeAnyOrder<T>(pairs: seq<NamedValue<T>>, others: seq<NamedValue<T>>, fields: seq<Field>, types: Registry)
    requires UniformFields(fields) && multiset(pairs) == multiset(others)
    ensures EncFields(Named(pairs), fields, types) == EncFields(Named(others), fields, types)
  {
    hide Arrange, EncAll;
    assert |others| == |multiset(others)| == |multiset(pairs)| == |pairs|;
    if |pairs| == |fields| && fields != [] && FirstNamed(fields) {
      ArrangeAnyOrder(pairs, others, fields);
    }
  }

  /** Decoded fields are already in the order of the type. */
  lemma ShapeFieldValues<T>(fields: seq<Field>, vs: seq<Value<T>>)
    requires UniformFields(fields) && |vs| == |fields|
    ensures FieldValues(Shape(fields, vs), fields) == Some(vs)
  {
    if AnyNamed(fields) {
      var pairs := WithNames(fields, vs);
      forall i | 0 <= i < |fields|
        ensures NamedValue(fields[i].name.value, vs[i]) in pairs
      {
        assert pairs[i] == NamedValue(fields[i].name.value, vs[i]);
      }
      ArrangeFinds(pairs, fields, vs);
      assert vs == [] || Arrange(pairs, fields) == Some(vs);
    }
  }
}

/**
 * The scripting function `complement(list1, list2, ...)`: the first list
 * with every element removed that occurs in a later list argument or equals
 * a later non-list argument.
 *
 * Java's `List.removeAll` compares with `equals`; here scripting values are
 * a datatype and `equals` is its equality (lists compare element by element,
 * null equals only null).
 */
module Complement {

  /** A scripting value: null, a list, or any other object. */
  datatype Obj<A> = Null | List(items: seq<Obj<A>>) | Atom(a: A)

  /** What `complement` returns: the resulting list, the error text for a
      first argument that is not a list, or the `ArrayIndexOutOfBounds`
      exception raised when there are no arguments at all. */
  datatype Applied<A> = Items(items: seq<Obj<A>>) | Message(text: string) | OutOfBounds

  const NOT_A_COLLECTION: string := "Argument 1 for complement must be a Collection"

  /** The values one later argument asks to remove: the elements of a list,
      the argument itself otherwise, nothing for null. */
  function Removed<A(==)>(source: Obj<A>): seq<Obj<A>>
  {
    match source
    case List(items) => items
    case Null => []
    case Atom(_) => [source]
  }

  /** `list.removeAll(c)`: every element of `xs` that `c` contains dropped,
      the others kept in order. */
  function RemoveAll<A(==)>(xs: seq<Obj<A>>, c: seq<Obj<A>>): seq<Obj<A>>
  {
    if xs == [] then []
    else (if xs[0] in c then [] else [xs[0]]) + RemoveAll(xs[1..], c)
  }

  /** The list after the later arguments `later` have been processed in
      order. */
  function RemoveEach<A(==)>(xs: seq<Obj<A>>, later: seq<Obj<A>>): seq<Obj<A>>
  {
    if later == [] then xs
    else RemoveAll(RemoveEach(xs, later[..|later| - 1]), Removed(later[|later| - 1]))
  }

  /** The result of `complement(sources...)`. */
  function ComplementOf<A(==)>(sources: seq<Obj<A>>): Applied<A>
  {
    if sources == [] then OutOfBounds
    else if !sources[0].List? then Message(NOT_A_COLLECTION)
    else Items(RemoveEach(sources[0].items, sources[1..]))
  }

  /** `apply`: copies the first list, then removes from the copy for each
      later argument in turn. */
  method Apply<A(==)>(sources: seq<Obj<A>>) returns (r: Applied<A>)
    ensures r == ComplementOf(sources)
  {
    if |sources| == 0 {
      return OutOfBounds;
    }
    if !sources[0].List? {
      return Message(NOT_A_COLLECTION);
    }
    var result := sources[0].items;
    for cnt := 1 to |sources|
      invariant result == RemoveEach(sources[0].items, sources[1..cnt])
    {
      assert sources[1..cnt + 1][..cnt - 1] == sources[1..cnt];
      var source := sources[cnt];
      if source.List? {
        result := RemoveAll(result, source.items);
      } else if source != Null {
        result := RemoveAll(result, [source]);
      } else {
        RemoveAllNothing(result);
      }
    }
    assert sources[1..|sources|] == sources[1..];
    r := Items(result);
  }

  // ----- the reference definition -----

  /** Whether some later argument removes `x`. */
  predicate Blocked<A(==)>(later: seq<Obj<A>>, x: Obj<A>)
  {
    exists k :: 0 <= k < |later| && x in Removed(later[k])
  }

  /** The elements of `xs` no later argument removes, in their order. */
  function Keep<A(==)>(xs: seq<Obj<A>>, later: seq<Obj<A>>): seq<Obj<A>>
  {
    if xs == [] then []
    else (if Blocked(later, xs[0]) then [] else [xs[0]]) + Keep(xs[1..], later)
  }

  lemma {:induction false} KeepThenRemove<A>(xs: seq<Obj<A>>, init: seq<Obj<A>>, later: seq<Obj<A>>)
    requires later != [] && init == later[..|later| - 1]
    ensures RemoveAll(Keep(xs, init), Removed(later[|later| - 1])) == Keep(xs, later)
  {
    if xs != [] {
      KeepThenRemove(xs[1..], init, later);
      var x := xs[0];
      var c := Removed(later[|later| - 1]);
      BlockedSnoc(init, later, x);
      var head := if Blocked(init, x) then [] else [x];
      RemoveAllAppend(head, Keep(xs[1..], init), c);
      assert RemoveAll(head, c) == if Blocked(later, x) then [] else [x];
    }
  }

  /** One more argument blocks what it removes, besides what the earlier
      ones block. */
  lemma BlockedSnoc<A>(init: seq<Obj<A>>, later: seq<Obj<A>>, x: Obj<A>)
    requires later != [] && init == later[..|later| - 1]
    ensures Blocked(later, x) <==> Blocked(init, x) || x in Removed(later[|later| - 1])
  {
    if Blocked(later, x) {
      var k :| 0 <= k < |later| && x in Removed(later[k]);
      if k < |later| - 1 {
        assert init[k] == later[k];
      }
    }
    if Blocked(init, x) {
      var k :| 0 <= k < |init| && x in Removed(init[k]);
      assert later[k] == init[k];
    }
  }

  lemma {:induction false} RemoveAllAppend<A>(a: seq<Obj<A>>, b: seq<Obj<A>>, c: seq<Obj<A>>)
    ensures RemoveAll(a + b, c) == RemoveAll(a, c) + RemoveAll(b, c)
  {
    if a == [] {
      assert a + b == b;
    } else {
      assert (a + b)[1..] == a[1..] + b;
      RemoveAllAppend(a[1..], b, c);
    }
  }

  /** Nothing to remove keeps every element. */
  lemma {:induction false} KeepNothingBlocked<A>(xs: seq<Obj<A>>)
    ensures Keep(xs, []) == xs
  {
    if xs != [] {
      KeepNothingBlocked(xs[1..]);
      assert xs == [xs[0]] + xs[1..];
    }
  }

  /** Removing argument by argument is keeping, in one pass, the elements no
      argument removes. */
  lemma {:induction false} RemoveEachIsKeep<A>(xs: seq<Obj<A>>, later: seq<Obj<A>>)
    ensures RemoveEach(xs, later) == Keep(xs, later)
    decreases |later|
  {
    if later == [] {
      KeepNothingBlocked(xs);
    } else {
      var init := later[..|later| - 1];
      RemoveEachIsKeep(xs, init);
      KeepThenRemove(xs, init, later);
    }
  }

  /** Every element occurs as often as in `xs` if no later argument removes
      it, and not at all otherwise. */
  lemma {:induction false} KeepCount<A>(xs: seq<Obj<A>>, later: seq<Obj<A>>, x: Obj<A>)
    ensures multiset(Keep(xs, later))[x] == if Blocked(later, x) then 0 else multiset(xs)[x]
  {
    if xs != [] {
      KeepCount(xs[1..], later, x);
      assert xs == [xs[0]] + xs[1..];
      var head := if Blocked(later, xs[0]) then [] else [xs[0]];
      assert multiset(head + Keep(xs[1..], later)) == multiset(head) + multiset(Keep(xs[1..], later));
    }
  }

  /** `Keep` takes a subsequence: never longer, every element from `xs`. */
  lemma {:induction false} KeepShorter<A>(xs: seq<Obj<A>>, later: seq<Obj<A>>)
    ensures |Keep(xs, later)| <= |xs|
    ensures forall y :: y in Keep(xs, later) ==> y in xs
  {
    if xs != [] {
      KeepShorter(xs[1..], later);
    }
  }

  // ----- what complement promises -----

  /** A first argument that is not a list gives the error text; no
      arguments at all raise. */
  lemma ComplementErrors<A>(sources: seq<Obj<A>>)
    ensures sources == [] ==> ComplementOf(sources) == OutOfBounds
    ensures sources != [] && !sources[0].List? ==> ComplementOf(sources) == Message(NOT_A_COLLECTION)
    ensures ComplementOf(sources).Items? <==> sources != [] && sources[0].List?
  {
  }

  /** The result keeps each element of the first list exactly as often as
      it occurs there unless a later argument removes it, in which case it is
      gone; it is never longer than the first list and holds only elements of
      it. */
  lemma ComplementContents<A>(first: seq<Obj<A>>, later: seq<Obj<A>>, x: Obj<A>)
    ensures var r := ComplementOf([List(first)] + later);
      && r.Items?
      && r.items == Keep(first, later)
      && multiset(r.items)[x] == (if Blocked(later, x) then 0 else multiset(first)[x])
      && (x in r.items <==> x in first && !Blocked(later, x))
      && |r.items| <= |first|
  {
    assert ([List(first)] + later)[1..] == later;
    RemoveEachIsKeep(first, later);
    KeepCount(first, later, x);
    KeepShorter(first, later);
  }

  /** Null arguments after the first remove nothing. */
  lemma ComplementIgnoresNull<A>(sources: seq<Obj<A>>)
    requires sources != []
    ensures ComplementOf(sources + [Null]) == ComplementOf(sources)
  {
    var s := sources + [Null];
    assert s[0] == sources[0];
    if sources[0].List? {
      assert s[1..] == sources[1..] + [Null];
      assert s[1..][..|s[1..]| - 1] == sources[1..];
      RemoveAllNothing(RemoveEach(sources[0].items, sources[1..]));
    }
  }

  lemma {:induction false} RemoveAllNothing<A>(xs: seq<Obj<A>>)
    ensures RemoveAll(xs, []) == xs
  {
    if xs != [] {
      RemoveAllNothing(xs[1..]);
      assert xs == [xs[0]] + xs[1..];
    }
  }

  /** Duplicates in the first list survive: `complement([a, a, b], [b])` is
      `[a, a]`, and removing a plain value removes all its copies. */
  lemma ComplementKeepsDuplicates<A>(a: A, b: A)
    requires a != b
    ensures ComplementOf([List([Atom(a), Atom(a), Atom(b)]), List([Atom(b)])]) == Items([Atom(a), Atom(a)])
    ensures ComplementOf([List([Atom(a), Atom(b), Atom(a)]), Atom(a)]) == Items([Atom(b)])
  {
    var s := [List([Atom(a), Atom(a), Atom(b)]), List([Atom(b)])];
    assert s[1..] == [List([Atom(b)])];
    assert s[1..][..0] == [];
    assert RemoveEach([Atom(a), Atom(a), Atom(b)], s[1..]) == RemoveAll([Atom(a), Atom(a), Atom(b)], [Atom(b)]);
    assert RemoveAll([Atom(a), Atom(a), Atom(b)], [Atom(b)]) == [Atom(a), Atom(a)] by {
      var c := [Atom(b)];
      assert Atom(a) !in c && Atom(b) in c;
      assert [Atom(b)][1..] == [];
      assert RemoveAll([Atom(b)], c) == [];
      assert [Atom(a), Atom(b)][1..] == [Atom(b)];
      assert RemoveAll([Atom(a), Atom(b)], c) == [Atom(a)];
      assert [Atom(a), Atom(a), Atom(b)][1..] == [Atom(a), Atom(b)];
    }
    var t := [List([Atom(a), Atom(b), Atom(a)]), Atom(a)];
    assert t[1..] == [Atom(a)];
    assert t[1..][..0] == [];
    assert RemoveEach([Atom(a), Atom(b), Atom(a)], t[1..]) == RemoveAll([Atom(a), Atom(b), Atom(a)], [Atom(a)]);
    assert RemoveAll([Atom(a), Atom(b), Atom(a)], [Atom(a)]) == [Atom(b)] by {
      var c := [Atom(a)];
      assert Atom(b) !in c && Atom(a) in c;
      assert [Atom(a)][1..] == [];
      assert RemoveAll([Atom(a)], c) == [];
      assert [Atom(b), Atom(a)][1..] == [Atom(a)];
      assert RemoveAll([Atom(b), Atom(a)], c) == [Atom(b)];
      assert [Atom(a), Atom(b), Atom(a)][1..] == [Atom(b), Atom(a)];
    }
  }
}

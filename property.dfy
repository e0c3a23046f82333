/**
 * A property key of the object graph (`Property<T>`): its builder flags,
 * identity (hash code, equality, ordering, synchronization key), the
 * decision whether and how a value is written to the node or relationship
 * index, and the translation of HTTP search parameters into query clauses.
 *
 * The query builder, the graph index and the value converter are outside
 * this model; the query is a recorder of the clauses it receives, the index
 * a map from (graph element, database name) to the stored value, and the
 * converter a function from strings to strings that may raise a
 * `FrameworkException`.
 */
module Properties {
  import opened Wrappers
  import Text
  import Search

  // ----- collaborators -----

  /** The Java class of a property's values, as far as `indexable` asks. */
  datatype ValueClass = ValueClass(name: string, isEnum: bool, isArray: bool)

  const DATE_CLASS: string := "java.util.Date"

  /** What a subclass of `Property` decides by overriding: its value type,
      its input converter, whether `;` splits a search value, and the
      identity hash code `Object.hashCode` would give it. */
  datatype Hooks = Hooks(
    valueType: Option<ValueClass>,
    inputConverter: Option<string -> Outcome<string, FrameworkError>>,
    multiValueSplitAllowed: bool,
    identityHash: int)

  /** One call a property makes on the query builder. */
  datatype Clause<K> =
    | AndRange(key: K, rangeStart: string, rangeEnd: string)   // query.andRange(key, from, to)
    | NotBlank(key: K)                                           // query.notBlank(key)
    | And(key: K, value: string, exact: bool)                    // query.and(key, value, exact)
    | Or(key: K, value: string, exact: bool)                     // query.or(key, value, exact)
    | BeginGroup                                                 // query.and()
    | EndGroup                                                   // query.parent()

  /** A query builder, recorded as the sequence of calls it received. */
  class Query<K> {
    var clauses: seq<Clause<K>>

    constructor()
      ensures clauses == []
    {
      clauses := [];
    }

    method Add(c: Clause<K>)
      modifies this
      ensures clauses == old(clauses) + [c]
    {
      clauses := clauses + [c];
    }
  }

  /** A `FrameworkException`: an HTTP status and a message. */
  datatype FrameworkError = FrameworkError(status: int, message: string)

  /** The `NullPointerException` of `compareTo` on a key without database name. */
  datatype JavaException = NullPointer

  const INVALID_RANGE: string := "Invalid range pattern."
  const MIXED_AND_OR: string := "Mixing of AND and OR not allowed in request parameters"

  /** Java string concatenation renders a null reference as `null`. */
  function NullText(s: Option<string>): string
  {
    if s.Some? then s.value else "null"
  }

  // ----- identity -----

  /** `hashCode`: `31*h(dbName) + h(jsonName)` in 32-bit arithmetic when both
      names are set, else the hash of the one that is set, else the identity
      hash. */
  function NameHash(dbName: Option<string>, jsonName: Option<string>, identity: int): int
  {
    if dbName.Some? && jsonName.Some? then
      Text.Wrap32(Text.JavaHash(dbName.value) * 31 + Text.JavaHash(jsonName.value))
    else if dbName.Some? then Text.JavaHash(dbName.value)
    else if jsonName.Some? then Text.JavaHash(jsonName.value)
    else identity
  }

  /** A named key's hash is a Java `int` and does not depend on the object's
      identity. */
  lemma NameHashOfNamedKey(dbName: Option<string>, jsonName: Option<string>, i: int, j: int)
    requires dbName.Some? || jsonName.Some?
    ensures Text.IsInt32(NameHash(dbName, jsonName, i))
    ensures NameHash(dbName, jsonName, i) == NameHash(dbName, jsonName, j)
  {
    var h := NameHash(dbName, jsonName, i);
    if dbName.Some? && jsonName.Some? {
      assert h == Text.Wrap32(Text.JavaHash(dbName.value) * 31 + Text.JavaHash(jsonName.value));
    }
  }

  /** A key with only a database name and a key with the same text as only
      JSON name hash alike, so `equals` identifies them. */
  lemma NameHashOneName(n: string, i: int, j: int)
    ensures NameHash(Some(n), None, i) == NameHash(None, Some(n), j)
  {
  }

  /** Since `equals` compares hash codes, keys with different names can be
      equal: `"Aa"` and `"BB"` have the same Java hash. */
  lemma NameHashCollision(json: string, i: int, j: int)
    ensures NameHash(Some("Aa"), Some(json), i) == NameHash(Some("BB"), Some(json), j)
  {
    assert Text.JavaHash("A") == 65 by {
      assert "A"[..0] == "";
    }
    assert Text.JavaHash("Aa") == 2112 by {
      assert "Aa"[..1] == "A";
    }
    assert Text.JavaHash("B") == 66 by {
      assert "B"[..0] == "";
    }
    assert Text.JavaHash("BB") == 2112 by {
      assert "BB"[..1] == "B";
    }
  }

  /** `compareTo`: Java `String.compareTo` of the two database names; a null
      name on either side raises a `NullPointerException`. */
  function CompareNames(a: Option<string>, b: Option<string>): (r: Outcome<int, JavaException>)
    ensures r.Err? <==> a.None? || b.None?
    ensures r.Ok? ==> (r.value == 0 <==> a == b)
  {
    if a.None? || b.None? then Err(NullPointer)
    else
      Text.JavaCompareZero(a.value, b.value);
      Ok(Text.JavaCompare(a.value, b.value))
  }

  /** Swapping the keys negates the comparison. */
  lemma CompareNamesAntisymmetric(a: Option<string>, b: Option<string>)
    requires a.Some? && b.Some?
    ensures CompareNames(a, b).value == -CompareNames(b, a).value
  {
    Text.JavaCompareAntisymmetric(a.value, b.value);
  }

  /** The ordering by database name is transitive. */
  lemma CompareNamesTransitive(a: Option<string>, b: Option<string>, c: Option<string>)
    requires a.Some? && b.Some? && c.Some?
    requires CompareNames(a, b).value < 0 && CompareNames(b, c).value < 0
    ensures CompareNames(a, c).value < 0
  {
    Text.JavaCompareTransitive(a.value, b.value, c.value);
  }

  /** `compareTo` and `equals` disagree: two keys with database name `id`
      and JSON names `a` and `b` compare as equal but have different hash
      codes. */
  lemma OrderIgnoresJsonName(i: int, j: int)
    ensures CompareNames(Some("id"), Some("id")) == Ok(0)
    ensures NameHash(Some("id"), Some("a"), i) != NameHash(Some("id"), Some("b"), j)
  {
    var h := Text.JavaHash("id");
    assert Text.JavaHash("a") == 97 by {
      assert "a"[..0] == "";
    }
    assert Text.JavaHash("b") == 98 by {
      assert "b"[..0] == "";
    }
    assert Text.IsInt32(h);
    assert Text.Wrap32(h * 31 + 97) != Text.Wrap32(h * 31 + 98) by {
      WrapStep(h * 31 + 97);
    }
  }

  /** Wrapping tells neighbouring integers apart. */
  lemma WrapStep(x: int)
    ensures Text.Wrap32(x) != Text.Wrap32(x + 1)
  {
  }

  /** `getSynchronizationKey`: the simple name of the declaring class, or
      `GraphObject` without one, a dot, and the database name. */
  function SyncKey(declaringClass: Option<string>, dbName: Option<string>): string
  {
    (if declaringClass.Some? then declaringClass.value else "GraphObject") + "." + NullText(dbName)
  }

  /** A Java simple class name contains no dot. */
  predicate SimpleName(c: Option<string>)
  {
    c.Some? ==> '.' !in c.value
  }

  /** For simple class names the key determines both the class part and the
      database name as rendered. */
  lemma SyncKeyDetermines(c1: Option<string>, d1: Option<string>, c2: Option<string>, d2: Option<string>)
    requires SimpleName(c1) && SimpleName(c2)
    requires SyncKey(c1, d1) == SyncKey(c2, d2)
    ensures (if c1.Some? then c1.value else "GraphObject") == (if c2.Some? then c2.value else "GraphObject")
    ensures NullText(d1) == NullText(d2)
  {
    var a := if c1.Some? then c1.value else "GraphObject";
    var b := if c2.Some? then c2.value else "GraphObject";
    var k := SyncKey(c1, d1);
    assert k == a + "." + NullText(d1);
    assert k == b + "." + NullText(d2);
    Search.FirstIndexOfAppend(a, '.', NullText(d1));
    Search.FirstIndexOfAppend(b, '.', NullText(d2));
    assert a == k[..|a|] == b;
    assert NullText(d1) == k[|a| + 1..] == NullText(d2);
  }

  /** A key without database name and one whose database name is the text
      `null` share their synchronization key. */
  lemma SyncKeyNullName(c: Option<string>)
    ensures SyncKey(c, None) == SyncKey(c, Some("null"))
  {
  }

  // ----- removeQuotes -----

  /** `removeQuotes`: every run of `"` deleted if there is one, then every run
      of `'`. */
  function RemoveQuotes(s: string): string
  {
    var t := if '"' in s then Text.ReplaceChar(s, '"', "") else s;
    if '\'' in t then Text.ReplaceChar(t, '\'', "") else t
  }

  /** Deleting a character is stripping it, whether or not it occurs. */
  lemma DeleteIsStrip(s: string, c: char)
    ensures (if c in s then Text.ReplaceChar(s, c, "") else s) == Text.Strip(s, {c})
  {
    Text.ReplaceByEmptyIsStrip(s, c);
    if c !in s {
      Text.ReplaceCharAbsent(s, c, "");
    }
  }

  /** `removeQuotes` keeps exactly the characters other than `"` and `'`, in
      order. */
  lemma RemoveQuotesIsStrip(s: string)
    ensures RemoveQuotes(s) == Text.Strip(s, {'"', '\''})
  {
    DeleteIsStrip(s, '"');
    var t := Text.Strip(s, {'"'});
    DeleteIsStrip(t, '\'');
    Text.StripTwice(s, {'"'}, {'\''});
    assert {'"'} + {'\''} == {'"', '\''};
  }

  /** No quote survives, every other character does, and a second pass
      changes nothing. */
  lemma RemoveQuotesProperties(s: string, d: char)
    ensures '"' !in RemoveQuotes(s) && '\'' !in RemoveQuotes(s)
    ensures d != '"' && d != '\'' ==> (d in RemoveQuotes(s) <==> d in s)
    ensures RemoveQuotes(RemoveQuotes(s)) == RemoveQuotes(s)
  {
    var q := {'"', '\''};
    RemoveQuotesIsStrip(s);
    Text.StripMembers(s, q, d);
    Text.StripMembers(s, q, '"');
    Text.StripMembers(s, q, '\'');
    var r := RemoveQuotes(s);
    RemoveQuotesIsStrip(r);
    Text.StripTwice(s, q, q);
    assert q + q == q;
  }

  // ----- search parameters -----

  /** `StringUtils.startsWith(p, "[") && StringUtils.endsWith(p, "]")`. */
  predicate Bracketed(p: string)
  {
    p != [] && p[0] == '[' && p[|p| - 1] == ']'
  }

  /** Handing a value to the query is described by the clauses the query
      received and the exception raised, if any. This is
      `query.and(key, converted, exact)`, or the converter's exception raised
      before the query is called. */
  function AndStep<K, E>(key: K, converted: Outcome<string, E>, exact: bool): (seq<Clause<K>>, Option<E>)
  {
    match converted
    case Ok(v) => ([And(key, v, exact)], None)
    case Err(e) => ([], Some(e))
  }

  /** `query.or(key, converted, exact)`, or the converter's exception. */
  function OrStep<K, E>(key: K, converted: Outcome<string, E>, exact: bool): (seq<Clause<K>>, Option<E>)
  {
    match converted
    case Ok(v) => ([Or(key, v, exact)], None)
    case Err(e) => ([], Some(e))
  }

  /** `query.andRange(key, start, end)` with the start converted first; a
      conversion that raises leaves the query untouched. */
  function RangeStep<K, E>(key: K, start: Outcome<string, E>, end: Outcome<string, E>): (seq<Clause<K>>, Option<E>)
  {
    if start.Err? then ([], Some(start.error))
    else if end.Err? then ([], Some(end.error))
    else ([AndRange(key, start.value, end.value)], None)
  }

  /** The turns of a group's loop, one `or` per piece. */
  function OrSteps<K, E>(key: K, convert: string -> Outcome<string, E>, pieces: seq<string>, exact: bool)
    : (r: seq<(seq<Clause<K>>, Option<E>)>)
    ensures |r| == |pieces|
    ensures forall k :: 0 <= k < |pieces| ==> r[k] == OrStep(key, convert(pieces[k]), exact)
  {
    seq(|pieces|, k requires 0 <= k < |pieces| => OrStep(key, convert(pieces[k]), exact))
  }

  /** A group: `query.and()`, one `query.or` per piece until a conversion
      raises, and `query.parent()` only when none did. */
  function OrGroup<K, E>(key: K, convert: string -> Outcome<string, E>, pieces: seq<string>, exact: bool)
    : (seq<Clause<K>>, Option<E>)
  {
    var g := Collect(OrSteps(key, convert, pieces, exact));
    if g.1.None? then ([BeginGroup] + g.0 + [EndGroup], None) else ([BeginGroup] + g.0, g.1)
  }

  /** After the first `n` turns of the group loop the query holds one `or`
      per converted piece, in order; if a conversion raised, it is the one
      of the next piece. */
  lemma {:induction false} OrStepsCollect<K, E>(key: K, convert: string -> Outcome<string, E>, pieces: seq<string>,
                                                exact: bool, n: nat)
    requires n <= |pieces|
    ensures var g := Collect(OrSteps(key, convert, pieces, exact)[..n]);
      && |g.0| <= n
      && (forall k :: 0 <= k < |g.0| ==> convert(pieces[k]).Ok? && g.0[k] == Or(key, convert(pieces[k]).value, exact))
      && (g.1.None? ==> |g.0| == n)
      && (g.1.Some? ==> |g.0| < n && convert(pieces[|g.0|]) == Err(g.1.value))
    decreases n
  {
    if n > 0 {
      var steps := OrSteps(key, convert, pieces, exact);
      OrStepsCollect(key, convert, pieces, exact, n - 1);
      var prev := Collect(steps[..n - 1]);
      var g := Collect(steps[..n]);
      assert steps[..n][..n - 1] == steps[..n - 1];
      assert steps[..n][n - 1] == OrStep(key, convert(pieces[n - 1]), exact);
      if prev.1.Some? {
        assert g == prev;
      } else if convert(pieces[n - 1]).Ok? {
        var last := Or(key, convert(pieces[n - 1]).value, exact);
        assert g == (prev.0 + [last], None);
        forall k | 0 <= k < |g.0|
          ensures convert(pieces[k]).Ok? && g.0[k] == Or(key, convert(pieces[k]).value, exact)
        {
          if k < n - 1 {
            assert g.0[k] == prev.0[k];
          }
        }
      } else {
        assert g == (prev.0 + [], Some(convert(pieces[n - 1]).error));
        assert prev.0 + [] == prev.0;
      }
    }
  }

  /** A group always opens; it closes with one `or` per piece, in order,
      exactly when every piece converts; otherwise it stays open after the
      `or`s of the pieces before the first that raised, and that piece's
      exception is raised. */
  lemma OrGroupSpec<K, E>(key: K, convert: string -> Outcome<string, E>, pieces: seq<string>, exact: bool)
    ensures var r := OrGroup(key, convert, pieces, exact);
      && |r.0| >= 1 && r.0[0] == BeginGroup
      && (r.1.None? <==> forall k :: 0 <= k < |pieces| ==> convert(pieces[k]).Ok?)
      && (r.1.None? ==>
            && |r.0| == |pieces| + 2 && r.0[|r.0| - 1] == EndGroup
            && forall k :: 0 <= k < |pieces| ==> r.0[k + 1] == Or(key, convert(pieces[k]).value, exact))
      && (r.1.Some? ==>
            && |r.0| <= |pieces| && convert(pieces[|r.0| - 1]) == Err(r.1.value)
            && forall k :: 0 <= k < |r.0| - 1 ==>
                 convert(pieces[k]).Ok? && r.0[k + 1] == Or(key, convert(pieces[k]).value, exact))
  {
    var steps := OrSteps(key, convert, pieces, exact);
    OrStepsCollect(key, convert, pieces, exact, |pieces|);
    assert steps[..|pieces|] == steps;
    var g := Collect(steps);
    if g.1.None? {
      OrGroupClosed(key, convert, pieces, exact, g);
    } else {
      OrGroupStopped(key, convert, pieces, exact, g);
    }
  }

  /** The closing case of `OrGroupSpec`. */
  lemma OrGroupClosed<K, E>(key: K, convert: string -> Outcome<string, E>, pieces: seq<string>, exact: bool,
                            g: (seq<Clause<K>>, Option<E>))
    requires g == Collect(OrSteps(key, convert, pieces, exact)) && g.1.None? && |g.0| == |pieces|
    requires forall k :: 0 <= k < |g.0| ==> convert(pieces[k]).Ok? && g.0[k] == Or(key, convert(pieces[k]).value, exact)
    ensures var r := OrGroup(key, convert, pieces, exact);
      && r.1.None? && |r.0| == |pieces| + 2 && r.0[0] == BeginGroup && r.0[|r.0| - 1] == EndGroup
      && (forall k :: 0 <= k < |pieces| ==> convert(pieces[k]).Ok?)
      && (forall k :: 0 <= k < |pieces| ==> r.0[k + 1] == Or(key, convert(pieces[k]).value, exact))
  {
    var r := OrGroup(key, convert, pieces, exact);
    assert r.0 == [BeginGroup] + g.0 + [EndGroup];
    forall k | 0 <= k < |pieces|
      ensures r.0[k + 1] == Or(key, convert(pieces[k]).value, exact)
    {
      assert r.0[k + 1] == g.0[k];
    }
  }

  /** The stopping case of `OrGroupSpec`. */
  lemma OrGroupStopped<K, E>(key: K, convert: string -> Outcome<string, E>, pieces: seq<string>, exact: bool,
                             g: (seq<Clause<K>>, Option<E>))
    requires g == Collect(OrSteps(key, convert, pieces, exact)) && g.1.Some? && |g.0| < |pieces|
    requires convert(pieces[|g.0|]) == Err(g.1.value)
    requires forall k :: 0 <= k < |g.0| ==> convert(pieces[k]).Ok? && g.0[k] == Or(key, convert(pieces[k]).value, exact)
    ensures var r := OrGroup(key, convert, pieces, exact);
      && r.1.Some? && |r.0| >= 1 && r.0[0] == BeginGroup
      && |r.0| <= |pieces| && convert(pieces[|r.0| - 1]) == Err(r.1.value)
      && !convert(pieces[|r.0| - 1]).Ok?
      && (forall k :: 0 <= k < |r.0| - 1 ==>
            convert(pieces[k]).Ok? && r.0[k + 1] == Or(key, convert(pieces[k]).value, exact))
  {
    var r := OrGroup(key, convert, pieces, exact);
    assert r.0 == [BeginGroup] + g.0 && r.1 == g.1;
    forall k | 0 <= k < |r.0| - 1
      ensures convert(pieces[k]).Ok? && r.0[k + 1] == Or(key, convert(pieces[k]).value, exact)
    {
      assert r.0[k + 1] == g.0[k];
    }
  }

  /** The nesting depth a clause sequence leaves the query in. */
  function GroupDepth<K>(cs: seq<Clause<K>>): int
  {
    if cs == [] then 0
    else GroupDepth(cs[..|cs| - 1]) + (match cs[|cs| - 1]
      case BeginGroup => 1
      case EndGroup => -1
      case _ => 0)
  }

  lemma {:induction false} GroupDepthAppend<K>(a: seq<Clause<K>>, b: seq<Clause<K>>)
    ensures GroupDepth(a + b) == GroupDepth(a) + GroupDepth(b)
    decreases |b|
  {
    if b == [] {
      assert a + b == a;
    } else {
      GroupDepthAppend(a, b[..|b| - 1]);
      assert (a + b)[..|a + b| - 1] == a + b[..|b| - 1];
    }
  }

  /** `or` clauses open and close no group. */
  lemma {:induction false} GroupDepthOfOrs<K>(cs: seq<Clause<K>>)
    requires forall k :: 0 <= k < |cs| ==> cs[k].Or?
    ensures GroupDepth(cs) == 0
    decreases |cs|
  {
    if cs != [] {
      GroupDepthOfOrs(cs[..|cs| - 1]);
    }
  }

  /** A closed group leaves the query at the depth it found it in; a group
      stopped by a conversion leaves it one deeper. */
  lemma OrGroupDepth<K, E>(key: K, convert: string -> Outcome<string, E>, pieces: seq<string>, exact: bool)
    ensures var r := OrGroup(key, convert, pieces, exact);
      GroupDepth(r.0) == if r.1.None? then 0 else 1
  {
    var g := Collect(OrSteps(key, convert, pieces, exact));
    OrStepsCollect(key, convert, pieces, exact, |pieces|);
    assert OrSteps(key, convert, pieces, exact)[..|pieces|] == OrSteps(key, convert, pieces, exact);
    var open: seq<Clause<K>> := [BeginGroup];
    var close: seq<Clause<K>> := [EndGroup];
    assert GroupDepth(open) == 1 by {
      assert open[..0] == [];
    }
    assert GroupDepth(close) == -1 by {
      assert close[..0] == [];
    }
    GroupDepthOfOrs(g.0);
    GroupDepthAppend(open, g.0);
    if g.1.None? {
      GroupDepthAppend(open + g.0, close);
    }
  }

  // ----- processing request values in order -----

  /** The clauses of a sequence of steps up to and including the first that
      raised, and that step's exception. */
  function Collect<C, E>(outs: seq<(seq<C>, Option<E>)>): (seq<C>, Option<E>)
  {
    if outs == [] then ([], None)
    else
      var prev := Collect(outs[..|outs| - 1]);
      if prev.1.Some? then prev
      else (prev.0 + outs[|outs| - 1].0, outs[|outs| - 1].1)
  }

  lemma CollectStep<C, E>(outs: seq<(seq<C>, Option<E>)>, i: nat)
    requires i < |outs| && Collect(outs[..i]).1.None?
    ensures Collect(outs[..i + 1]) == (Collect(outs[..i]).0 + outs[i].0, outs[i].1)
  {
    assert outs[..i + 1][..i] == outs[..i];
  }

  /** Once a prefix has been refused, later outcomes change nothing. */
  lemma {:induction false} CollectAfterError<C, E>(outs: seq<(seq<C>, Option<E>)>, n: nat)
    requires n <= |outs| && Collect(outs[..n]).1.Some?
    ensures Collect(outs) == Collect(outs[..n])
    decreases |outs| - n
  {
    if n < |outs| {
      assert outs[..n + 1][..n] == outs[..n];
      CollectAfterError(outs, n + 1);
    } else {
      assert outs[..n] == outs;
    }
  }

  // ----- the index -----

  /** The graph element a property is indexed on. */
  datatype GraphEntity<N, R> = NodeEntity(node: N) | RelationshipEntity(rel: R) | OtherEntity

  /** Where the index operations of `index()` end when they raise: the
      exception is caught and logged, and whatever was done before stays. */
  datatype IndexFault = NoFault | RemoveRaises | AddRaises

  /** The graph index: for each element and database name, the stored value
      (absent when nothing is stored; `None` is a stored null). */
  class Index<E(==), X> {
    var entries: map<(E, Option<string>), Option<X>>

    constructor()
      ensures entries == map[]
    {
      entries := map[];
    }

    method Remove(e: E, name: Option<string>)
      modifies this
      ensures entries == old(entries) - {(e, name)}
    {
      entries := entries - {(e, name)};
    }

    method Add(e: E, name: Option<string>, value: Option<X>)
      modifies this
      ensures entries == old(entries)[(e, name) := value]
    {
      entries := entries[(e, name) := value];
    }
  }

  /** The index after `index(entity, value)` on the element `e`: the old
      mapping removed, then the value added when it is non-null or the key is
      indexed when empty, as far as the operations get before `fault`. */
  function IndexUpdate<E(==), X>(entries: map<(E, Option<string>), Option<X>>, e: E, name: Option<string>,
                             value: Option<X>, whenEmpty: bool, fault: IndexFault): map<(E, Option<string>), Option<X>>
  {
    if fault == RemoveRaises then entries
    else
      var removed := entries - {(e, name)};
      if (value.Some? || whenEmpty) && fault != AddRaises then removed[(e, name) := value] else removed
  }

  /** Without a fault, the element's entry is there exactly when the value is
      non-null or the key is indexed when empty, and then holds the value;
      every other entry is kept. */
  lemma IndexUpdateEntry<E, X>(entries: map<(E, Option<string>), Option<X>>, e: E, name: Option<string>,
                               value: Option<X>, whenEmpty: bool, other: (E, Option<string>))
    ensures var r := IndexUpdate(entries, e, name, value, whenEmpty, NoFault);
      && ((e, name) in r <==> value.Some? || whenEmpty)
      && ((e, name) in r ==> r[(e, name)] == value)
      && (other != (e, name) ==> (other in r <==> other in entries) && (other in r ==> r[other] == entries[other]))
  {
  }

  /** Indexing the same value twice is indexing it once. */
  lemma IndexUpdateIdempotent<E, X>(entries: map<(E, Option<string>), Option<X>>, e: E, name: Option<string>,
                                    value: Option<X>, whenEmpty: bool)
    ensures var once := IndexUpdate(entries, e, name, value, whenEmpty, NoFault);
      IndexUpdate(once, e, name, value, whenEmpty, NoFault) == once
  {
    var once := IndexUpdate(entries, e, name, value, whenEmpty, NoFault);
    var twice := IndexUpdate(once, e, name, value, whenEmpty, NoFault);
    forall k | k in twice ensures k in once && twice[k] == once[k] {
    }
    forall k | k in once ensures k in twice {
    }
  }

  /** A fault in `add` still leaves the old mapping removed. */
  lemma IndexUpdateAddRaises<E, X>(entries: map<(E, Option<string>), Option<X>>, e: E, name: Option<string>,
                                   value: Option<X>, whenEmpty: bool)
    ensures (e, name) !in IndexUpdate(entries, e, name, value, whenEmpty, AddRaises)
  {
  }

  // ----- the property key -----

  /** The flags and names a property key carries. */
  datatype Settings<T> = Settings(
    declaringClass: Option<string>, defaultValue: Option<T>,
    readOnly: bool, systemInternal: bool, writeOnce: bool, unvalidated: bool,
    indexed: bool, indexedPassively: bool, indexedWhenEmpty: bool,
    compound: bool, unique: bool, notNull: bool, dynamic: bool, isCMISProperty: bool,
    dbName: Option<string>, jsonName: Option<string>,
    format: Option<string>, readFunction: Option<string>, writeFunction: Option<string>,
    requiresSynchronization: bool)

  class Property<T(==)> {
    const hooks: Hooks
    var declaringClass: Option<string>   // the simple name of the declaring class
    var defaultValue: Option<T>
    var readOnly: bool
    var systemInternal: bool
    var writeOnce: bool
    var unvalidated: bool
    var indexed: bool
    var indexedPassively: bool
    var indexedWhenEmpty: bool
    var compound: bool
    var unique: bool
    var notNull: bool
    var dynamic: bool
    var isCMISProperty: bool
    var dbName: Option<string>
    var jsonName: Option<string>
    var format: Option<string>
    var readFunction: Option<string>
    var writeFunction: Option<string>
    var requiresSynchronization: bool

    function State(): Settings<T>
      reads this
    {
      Settings(declaringClass, defaultValue, readOnly, systemInternal, writeOnce, unvalidated,
        indexed, indexedPassively, indexedWhenEmpty, compound, unique, notNull, dynamic, isCMISProperty,
        dbName, jsonName, format, readFunction, writeFunction, requiresSynchronization)
    }

    /** The implications among the flags that every builder call keeps:
        indexed when empty implies passively indexed, which implies indexed,
        and a compound key requires synchronization. (A unique key need not:
        `unique(true)` sets the flag alone.) */
    predicate Valid()
      reads this
    {
      && (indexedWhenEmpty ==> indexedPassively)
      && (indexedPassively ==> indexed)
      && (compound ==> requiresSynchronization)
    }

    /** `Property(jsonName, dbName, defaultValue)`: all flags off, no declaring
        class and no format or functions. */
    constructor(jsonName: Option<string>, dbName: Option<string>, defaultValue: Option<T>, hooks: Hooks)
      ensures State() == Settings(None, defaultValue, false, false, false, false, false, false, false,
        false, false, false, false, false, dbName, jsonName, None, None, None, false)
      ensures this.hooks == hooks
      ensures Valid()
    {
      this.hooks := hooks;
      this.declaringClass := None;
      this.defaultValue := defaultValue;
      this.readOnly := false;
      this.systemInternal := false;
      this.writeOnce := false;
      this.unvalidated := false;
      this.indexed := false;
      this.indexedPassively := false;
      this.indexedWhenEmpty := false;
      this.compound := false;
      this.unique := false;
      this.notNull := false;
      this.dynamic := false;
      this.isCMISProperty := false;
      this.dbName := dbName;
      this.jsonName := jsonName;
      this.format := None;
      this.readFunction := None;
      this.writeFunction := None;
      this.requiresSynchronization := false;
    }

    /** `Property(name)`: the same name in JSON and in the database. */
    constructor Named(name: string, hooks: Hooks)
      ensures State() == Settings(None, None, false, false, false, false, false, false, false,
        false, false, false, false, false, Some(name), Some(name), None, None, None, false)
      ensures this.hooks == hooks
      ensures Valid()
    {
      this.hooks := hooks;
      this.declaringClass := None;
      this.defaultValue := None;
      this.readOnly := false;
      this.systemInternal := false;
      this.writeOnce := false;
      this.unvalidated := false;
      this.indexed := false;
      this.indexedPassively := false;
      this.indexedWhenEmpty := false;
      this.compound := false;
      this.unique := false;
      this.notNull := false;
      this.dynamic := false;
      this.isCMISProperty := false;
      this.dbName := Some(name);
      this.jsonName := Some(name);
      this.format := None;
      this.readFunction := None;
      this.writeFunction := None;
      this.requiresSynchronization := false;
    }

    // ----- builder methods: each returns the key itself -----

    method Unvalidated() returns (r: Property<T>)
      requires Valid()
      modifies this
      ensures r == this && Valid()
      ensures State() == old(State()).(unvalidated := true)
    {
      unvalidated := true;
      r := this;
    }

    method ReadOnly() returns (r: Property<T>)
      requires Valid()
      modifies this
      ensures r == this && Valid()
      ensures State() == old(State()).(readOnly := true)
    {
      readOnly := true;
      r := this;
    }

    method SystemInternal() returns (r: Property<T>)
      requires Valid()
      modifies this
      ensures r == this && Valid()
      ensures State() == old(State()).(systemInternal := true)
    {
      systemInternal := true;
      r := this;
    }

    method WriteOnce() returns (r: Property<T>)
      requires Valid()
      modifies this
      ensures r == this && Valid()
      ensures State() == old(State()).(writeOnce := true)
    {
      writeOnce := true;
      r := this;
    }

    /** `unique()`: unique, and synchronized on writes. */
    method Unique() returns (r: Property<T>)
      requires Valid()
      modifies this
      ensures r == this && Valid()
      ensures State() == old(State()).(unique := true, requiresSynchronization := true)
    {
      unique := true;
      requiresSynchronization := true;
      r := this;
    }

    /** `compound()`: compound, and synchronized on writes. */
    method Compound() returns (r: Property<T>)
      requires Valid()
      modifies this
      ensures r == this && Valid()
      ensures State() == old(State()).(compound := true, requiresSynchronization := true)
    {
      compound := true;
      requiresSynchronization := true;
      r := this;
    }

    method NotNull() returns (r: Property<T>)
      requires Valid()
      modifies this
      ensures r == this && Valid()
      ensures State() == old(State()).(notNull := true)
    {
      notNull := true;
      r := this;
    }

    method Indexed() returns (r: Property<T>)
      requires Valid()
      modifies this
      ensures r == this && Valid()
      ensures State() == old(State()).(indexed := true)
    {
      indexed := true;
      r := this;
    }

    /** `passivelyIndexed()`: passively indexed, hence indexed. */
    method PassivelyIndexed() returns (r: Property<T>)
      requires Valid()
      modifies this
      ensures r == this && Valid()
      ensures State() == old(State()).(indexedPassively := true, indexed := true)
    {
      indexedPassively := true;
      indexed := true;
      r := this;
    }

    /** `indexedWhenEmpty()`: passively indexed, and a null value is indexed
        too. */
    method IndexedWhenEmpty() returns (r: Property<T>)
      requires Valid()
      modifies this
      ensures r == this && Valid()
      ensures State() == old(State()).(indexedPassively := true, indexed := true, indexedWhenEmpty := true)
    {
      var _ := PassivelyIndexed();
      indexedWhenEmpty := true;
      r := this;
    }

    method Cmis() returns (r: Property<T>)
      requires Valid()
      modifies this
      ensures r == this && Valid()
      ensures State() == old(State()).(isCMISProperty := true)
    {
      isCMISProperty := true;
      r := this;
    }

    method Dynamic() returns (r: Property<T>)
      requires Valid()
      modifies this
      ensures r == this && Valid()
      ensures State() == old(State()).(dynamic := true)
    {
      dynamic := true;
      r := this;
    }

    /** `unique(boolean)`: sets or clears the flag and leaves
        `requiresSynchronization` as it was. */
    method SetUnique(b: bool) returns (r: Property<T>)
      requires Valid()
      modifies this
      ensures r == this && Valid()
      ensures State() == old(State()).(unique := b)
    {
      unique := b;
      r := this;
    }

    /** `notNull(boolean)`. */
    method SetNotNull(b: bool) returns (r: Property<T>)
      requires Valid()
      modifies this
      ensures r == this && Valid()
      ensures State() == old(State()).(notNull := b)
    {
      notNull := b;
      r := this;
    }

    method SetDefaultValue(v: Option<T>) returns (r: Property<T>)
      requires Valid()
      modifies this
      ensures r == this && Valid()
      ensures State() == old(State()).(defaultValue := v)
    {
      defaultValue := v;
      r := this;
    }

    method SetFormat(f: Option<string>) returns (r: Property<T>)
      requires Valid()
      modifies this
      ensures r == this && Valid()
      ensures State() == old(State()).(format := f)
    {
      format := f;
      r := this;
    }

    method SetReadFunction(f: Option<string>) returns (r: Property<T>)
      requires Valid()
      modifies this
      ensures r == this && Valid()
      ensures State() == old(State()).(readFunction := f)
    {
      readFunction := f;
      r := this;
    }

    method SetWriteFunction(f: Option<string>) returns (r: Property<T>)
      requires Valid()
      modifies this
      ensures r == this && Valid()
      ensures State() == old(State()).(writeFunction := f)
    {
      writeFunction := f;
      r := this;
    }

    /** `dbName(String)`; unlike the builders it returns nothing. */
    method SetDbName(n: Option<string>)
      requires Valid()
      modifies this
      ensures Valid()
      ensures State() == old(State()).(dbName := n)
    {
      dbName := n;
    }

    /** `jsonName(String)`. */
    method SetJsonName(n: Option<string>)
      requires Valid()
      modifies this
      ensures Valid()
      ensures State() == old(State()).(jsonName := n)
    {
      jsonName := n;
    }

    /** `setDeclaringClass(Class)`, recorded by the class's simple name. */
    method SetDeclaringClass(c: Option<string>)
      requires Valid()
      modifies this
      ensures Valid()
      ensures State() == old(State()).(declaringClass := c)
    {
      declaringClass := c;
    }

    // ----- identity -----

    function HashCode(): int
      reads this
    {
      NameHash(dbName, jsonName, hooks.identityHash)
    }

    /** `equals(o)`: `o` is a property key (`None` stands for null or an
        object of another kind) with the same hash code. Java accepts a key
        of any value type here; the model compares keys of the same value
        type `T` only. */
    predicate Equals(o: Option<Property<T>>)
      reads this, if o.Some? then {o.value} else {}
    {
      o.Some? && o.value.HashCode() == HashCode()
    }

    function CompareTo(other: Property<T>): (r: Outcome<int, JavaException>)
      reads this, other
      ensures r.Err? <==> dbName.None? || other.dbName.None?
      ensures r.Ok? ==> (r.value == 0 <==> dbName == other.dbName)
    {
      CompareNames(dbName, other.dbName)
    }

    function SynchronizationKey(): string
      reads this
    {
      SyncKey(declaringClass, dbName)
    }

    /** `indexable(value)`: a non-null value of a key whose value type is one
        of the index's own types, `Date`, an enum or an array type. */
    predicate Indexable<X>(value: Option<X>, indexableTypes: set<string>)
    {
      && value.Some?
      && hooks.valueType.Some?
      && var vt := hooks.valueType.value;
         vt.name in indexableTypes || vt.name == DATE_CLASS || vt.isEnum || vt.isArray
    }

    // ----- search -----

    /** `convertSearchValue`: the input converter applied, if there is one;
        the converter may raise. */
    function Convert(v: string): Outcome<string, FrameworkError>
    {
      if hooks.inputConverter.Some? then hooks.inputConverter.value(v) else Ok(v)
    }

    /** What `determineSearchType(requestParameter)` does: the clauses it
        hands to the query and the exception it raises, if any. */
    function SearchClauses(p: string, exact: bool): (seq<Clause<Property<T>>>, Option<FrameworkError>)
      reads this
    {
      if Bracketed(p) && Search.RangeMatch(p).Some? then
        var m := Search.RangeMatch(p).value;
        RangeStep(this, Convert(m.0), Convert(m.1))
      else if Bracketed(p) && p == "[]" then
        if indexedWhenEmpty then ([NotBlank(this)], None)
        else ([], Some(FrameworkError(400, "PropertyKey " + NullText(jsonName)
          + " must be indexedWhenEmpty() to be used in not-blank search query.")))
      else if Bracketed(p) then ([], Some(FrameworkError(422, INVALID_RANGE)))
      else if ',' in p && ';' in p then ([], Some(FrameworkError(422, MIXED_AND_OR)))
      else if ';' in p && hooks.multiValueSplitAllowed then OrGroup(this, Convert, Search.SplitSemicolons(p), exact)
      else if ';' in p then OrStep(this, Convert(p), exact)
      else AndStep(this, Convert(p), exact)
    }

    /** What a range parameter with bounds `lo` and `hi` does: both converted,
        the start first, and one `andRange` clause; a conversion that raises
        leaves the query untouched. */
    predicate RangeOutcome(p: string, lo: string, hi: string, exact: bool)
      reads this
    {
      var r := SearchClauses(p, exact);
      && (r.1.None? <==> Convert(lo).Ok? && Convert(hi).Ok?)
      && (r.1.None? ==> r.0 == [AndRange(this, Convert(lo).value, Convert(hi).value)])
      && (r.1.Some? ==> r.0 == [] && r.1.value == (if Convert(lo).Err? then Convert(lo).error else Convert(hi).error))
    }

    /** A range parameter is split at ` TO `, the first group as long as
        possible; both groups are converted, the start first, and give one
        `andRange` clause; a conversion that raises leaves the query
        untouched. */
    lemma SearchRange(p: string, lo: string, hi: string, exact: bool)
      requires Search.IsRangeSplit(p, lo, hi)
      ensures exists lo', hi' :: Search.IsRangeSplit(p, lo', hi') && |lo'| >= |lo| && RangeOutcome(p, lo', hi', exact)
    {
      Search.RangeMatchComplete(p, lo, hi);
      Search.RangeMatchSound(p);
      var m := Search.RangeMatch(p).value;
      assert Bracketed(p);
      assert Search.IsRangeSplit(p, m.0, m.1) && |m.0| >= |lo|;
    }

    /** `[]` selects non-blank values exactly when the key is indexed when
        empty, and is refused with status 400 otherwise. */
    lemma SearchNotBlank(exact: bool)
      ensures SearchClauses("[]", exact).1.None? <==> indexedWhenEmpty
      ensures indexedWhenEmpty ==> SearchClauses("[]", exact).0 == [NotBlank(this)]
      ensures !indexedWhenEmpty ==> SearchClauses("[]", exact).0 == [] && SearchClauses("[]", exact).1.value.status == 400
    {
      assert Bracketed("[]");
      assert Search.RangeMatch("[]").None? by {
        var inner := "[]"[1..1];
        assert Search.LastSeparator(inner, |inner| - 5) == 0;
      }
    }

    /** On a key built by the builder methods, a key that accepts `[]` is
        also indexed and passively indexed, so the not-blank clause is
        searched on an indexed key. */
    lemma SearchNotBlankIndexed(exact: bool)
      requires Valid()
      ensures SearchClauses("[]", exact).1.None? ==> indexed && indexedPassively
    {
      SearchNotBlank(exact);
    }

    /** Any other bracketed parameter is refused with status 422. */
    lemma SearchInvalidRange(p: string, exact: bool)
      requires Bracketed(p) && p != "[]"
      requires forall lo, hi :: !Search.IsRangeSplit(p, lo, hi)
      ensures SearchClauses(p, exact) == ([], Some(FrameworkError(422, INVALID_RANGE)))
    {
      if Search.RangeMatch(p).Some? {
        Search.RangeMatchSound(p);
        assert false;
      }
    }

    /** A parameter with both `,` and `;` is refused with status 422. */
    lemma SearchMixed(p: string, exact: bool)
      requires !Bracketed(p) && ',' in p && ';' in p
      ensures SearchClauses(p, exact) == ([], Some(FrameworkError(422, MIXED_AND_OR)))
    {
    }

    /** With multi-value splitting, a `;` list opens a group and hands one
        `or` clause per non-empty piece (a leading empty piece included), in
        order, with no `;` reaching the query. The group is closed exactly
        when every piece converts; otherwise the exception of the first piece
        that raises is raised and the group stays open after the `or`s of the
        pieces before it. */
    lemma SearchOrGroup(p: string, exact: bool)
      requires !Bracketed(p) && ',' !in p && ';' in p && hooks.multiValueSplitAllowed
      ensures var r := SearchClauses(p, exact);
        var pieces := Search.SplitSemicolons(p);
        && |r.0| >= 1 && r.0[0] == BeginGroup
        && (r.1.None? <==> forall k :: 0 <= k < |pieces| ==> Convert(pieces[k]).Ok?)
        && (r.1.None? ==>
              && |r.0| == |pieces| + 2 && r.0[|r.0| - 1] == EndGroup
              && forall k :: 0 <= k < |pieces| ==> r.0[k + 1] == Or(this, Convert(pieces[k]).value, exact))
        && (r.1.Some? ==>
              && |r.0| <= |pieces| && Convert(pieces[|r.0| - 1]) == Err(r.1.value)
              && forall k :: 0 <= k < |r.0| - 1 ==>
                   Convert(pieces[k]).Ok? && r.0[k + 1] == Or(this, Convert(pieces[k]).value, exact))
        && (forall k :: 0 <= k < |pieces| ==> ';' !in pieces[k])
        && Search.Concat(pieces) == Text.Strip(p, {';'})
    {
      var pieces := Search.SplitSemicolons(p);
      assert SearchClauses(p, exact) == OrGroup(this, Convert, pieces, exact);
      OrGroupSpec(this, Convert, pieces, exact);
      Search.SplitSemicolonsProperties(p);
    }

    /** Without multi-value splitting, a `;` list is one `or` clause with
        the whole converted parameter, or the converter's exception. */
    lemma SearchNoSplit(p: string, exact: bool)
      requires !Bracketed(p) && ',' !in p && ';' in p && !hooks.multiValueSplitAllowed
      ensures Convert(p).Ok? ==> SearchClauses(p, exact) == ([Or(this, Convert(p).value, exact)], None)
      ensures Convert(p).Err? ==> SearchClauses(p, exact) == ([], Some(Convert(p).error))
    {
    }

    /** Without `;`, an unbracketed parameter is one `and` clause, or the
        converter's exception. */
    lemma SearchPlain(p: string, exact: bool)
      requires !Bracketed(p) && ';' !in p
      ensures Convert(p).Ok? ==> SearchClauses(p, exact) == ([And(this, Convert(p).value, exact)], None)
      ensures Convert(p).Err? ==> SearchClauses(p, exact) == ([], Some(Convert(p).error))
    {
    }

    /** Every accepted parameter leaves the query at the nesting depth it
        found it in. A refused one hands nothing to the query, except an
        `or` group whose piece fails to convert: that leaves the query one
        group deeper, because `query.parent()` is not reached. A key without
        converter never leaves a group open. */
    lemma SearchBalanced(p: string, exact: bool)
      ensures var r := SearchClauses(p, exact);
        && (r.1.None? ==> GroupDepth(r.0) == 0)
        && (r.1.Some? && r.0 != [] ==>
              && !Bracketed(p) && ';' in p && ',' !in p && hooks.multiValueSplitAllowed
              && r.0[0] == BeginGroup && GroupDepth(r.0) == 1)
        && (hooks.inputConverter.None? && r.1.Some? ==> r.0 == [])
    {
      var r := SearchClauses(p, exact);
      if !Bracketed(p) && ';' in p && ',' !in p && hooks.multiValueSplitAllowed {
        var pieces := Search.SplitSemicolons(p);
        OrGroupDepth(this, Convert, pieces, exact);
        OrGroupSpec(this, Convert, pieces, exact);
      } else if r.0 != [] {
        assert |r.0| == 1 && !r.0[0].BeginGroup? && !r.0[0].EndGroup?;
        assert r.0[..0] == [];
      }
    }

    /** A converter that accepts "a" and raises on "b": `a;b;c` leaves an
        open group holding the `or` for "a", and "c" is never converted. */
    lemma ConverterRaisesMidGroup(exact: bool)
      requires hooks.multiValueSplitAllowed && Convert("a").Ok? && Convert("b").Err?
      ensures SearchClauses("a;b;c", exact) == ([BeginGroup, Or(this, Convert("a").value, exact)], Some(Convert("b").error))
    {
      var p := "a;b;c";
      var pieces := Search.SplitSemicolons(p);
      Search.SplitSemicolonsThree();
      assert !Bracketed(p) && p[1] == ';' && ',' !in p;
      OrGroupSpec(this, Convert, pieces, exact);
      var r := SearchClauses(p, exact);
      assert r == OrGroup(this, Convert, pieces, exact);
      assert r.1.Some? by {
        assert !Convert(pieces[1]).Ok?;
      }
      assert |r.0| == 2 by {
        assert |r.0| - 1 != 0 by { assert Convert(pieces[0]).Ok?; }
        var b := pieces[1];
        assert 1 < |r.0| - 1 ==> Convert(b).Ok?;
      }
      assert pieces[0] == "a" && pieces[1] == "b";
      assert r.0[0 + 1] == Or(this, Convert(pieces[0]).value, exact);
      assert Convert(pieces[|r.0| - 1]) == Err(r.1.value);
      assert r.0 == [BeginGroup, r.0[1]];
    }

    /** `query.and()`, one `query.or(...)` per piece with the piece converted
        first, and `query.parent()`; a conversion that raises ends it. */
    method AddOrGroup(pieces: seq<string>, exact: bool, query: Query<Property<T>>)
      returns (r: Outcome<(), FrameworkError>)
      modifies query
      ensures query.clauses == old(query.clauses) + OrGroup(this, Convert, pieces, exact).0
      ensures r.Ok? <==> OrGroup(this, Convert, pieces, exact).1.None?
      ensures r.Err? ==> r.error == OrGroup(this, Convert, pieces, exact).1.value
    {
      query.Add(BeginGroup);
      r := AddOrs(pieces, exact, query);
      if r.Ok? {
        query.Add(EndGroup);
      }
    }

    /** The loop of a group: one `query.or(...)` per piece until a
        conversion raises. */
    method AddOrs(pieces: seq<string>, exact: bool, query: Query<Property<T>>)
      returns (r: Outcome<(), FrameworkError>)
      modifies query
      ensures query.clauses == old(query.clauses) + Collect(OrSteps(this, Convert, pieces, exact)).0
      ensures r.Ok? <==> Collect(OrSteps(this, Convert, pieces, exact)).1.None?
      ensures r.Err? ==> r.error == Collect(OrSteps(this, Convert, pieces, exact)).1.value
    {
      ghost var steps := OrSteps(this, Convert, pieces, exact);
      ghost var begun := query.clauses;
      for k := 0 to |pieces|
        invariant Collect(steps[..k]).1.None?
        invariant query.clauses == begun + Collect(steps[..k]).0
      {
        ghost var prev := Collect(steps[..k]).0;
        CollectStep(steps, k);
        var converted := Convert(pieces[k]);
        if converted.Err? {
          CollectAfterError(steps, k + 1);
          assert prev + [] == prev;
          return Err(converted.error);
        }
        query.Add(Or(this, converted.value, exact));
        assert begun + prev + [Or(this, converted.value, exact)] == begun + (prev + [Or(this, converted.value, exact)]);
      }
      assert steps[..|pieces|] == steps;
      r := Ok(());
    }

    /** `determineSearchType`: hands the parameter's clauses to the query,
        and raises what it specifies. */
    method DetermineSearchType(p: string, exact: bool, query: Query<Property<T>>)
      returns (r: Outcome<(), FrameworkError>)
      modifies query
      ensures query.clauses == old(query.clauses) + SearchClauses(p, exact).0
      ensures r.Ok? <==> SearchClauses(p, exact).1.None?
      ensures r.Err? ==> r.error == SearchClauses(p, exact).1.value
    {
      if Bracketed(p) {
        var m := Search.RangeMatch(p);
        if m.Some? {
          var rangeStart := Convert(m.value.0);
          if rangeStart.Err? {
            return Err(rangeStart.error);
          }
          var rangeEnd := Convert(m.value.1);
          if rangeEnd.Err? {
            return Err(rangeEnd.error);
          }
          query.Add(AndRange(this, rangeStart.value, rangeEnd.value));
          return Ok(());
        } else if p == "[]" {
          if indexedWhenEmpty {
            query.Add(NotBlank(this));
            return Ok(());
          } else {
            return Err(FrameworkError(400, "PropertyKey " + NullText(jsonName)
              + " must be indexedWhenEmpty() to be used in not-blank search query."));
          }
        } else {
          return Err(FrameworkError(422, INVALID_RANGE));
        }
      }
      if ',' in p && ';' in p {
        return Err(FrameworkError(422, MIXED_AND_OR));
      }
      if ';' in p && hooks.multiValueSplitAllowed {
        r := AddOrGroup(Search.SplitSemicolons(p), exact, query);
        return;
      }
      var converted := Convert(p);
      if converted.Err? {
        return Err(converted.error);
      }
      if ';' in p {
        query.Add(Or(this, converted.value, exact));
      } else {
        query.Add(And(this, converted.value, exact));
      }
      r := Ok(());
    }

    /** What `determineSearchType` does with each of `values`. */
    function Outcomes(values: seq<string>, exact: bool): (r: seq<(seq<Clause<Property<T>>>, Option<FrameworkError>)>)
      reads this
      ensures |r| == |values|
      ensures forall k {:trigger values[k]} :: 0 <= k < |values| ==> r[k] == SearchClauses(values[k], exact)
    {
      if values == [] then []
      else Outcomes(values[..|values| - 1], exact) + [SearchClauses(values[|values| - 1], exact)]
    }

    lemma OutcomesPrefix(values: seq<string>, n: nat, exact: bool)
      requires n <= |values|
      ensures Outcomes(values[..n], exact) == Outcomes(values, exact)[..n]
    {
      var a := Outcomes(values[..n], exact);
      var b := Outcomes(values, exact);
      forall k | 0 <= k < n
        ensures a[k] == b[k]
      {
        assert values[..n][k] == values[k];
      }
    }

    /** The clauses `extractSearchableAttribute` hands to the query for the
        parameter values `values`, and the exception that stopped it, if any:
        the values are processed in order and the first refused one ends the
        loop. */
    function ExtractClauses(values: seq<string>, exact: bool): (seq<Clause<Property<T>>>, Option<FrameworkError>)
      reads this
    {
      Collect(Outcomes(values, exact))
    }

    /** The clauses of each value, concatenated. */
    function ConcatClauses(values: seq<string>, exact: bool): seq<Clause<Property<T>>>
      requires forall k :: 0 <= k < |values| ==> SearchClauses(values[k], exact).1.None?
      reads this
    {
      if values == [] then []
      else ConcatClauses(values[..|values| - 1], exact) + SearchClauses(values[|values| - 1], exact).0
    }

    /** Values that are all accepted give their clauses one after another. */
    lemma {:induction false} ExtractAccepted(values: seq<string>, exact: bool)
      requires forall k :: 0 <= k < |values| ==> SearchClauses(values[k], exact).1.None?
      ensures ExtractClauses(values, exact) == (ConcatClauses(values, exact), None)
      decreases |values|
    {
      if values != [] {
        var n := |values| - 1;
        var outs := Outcomes(values, exact);
        ExtractAccepted(values[..n], exact);
        OutcomesPrefix(values, n, exact);
        CollectStep(outs, n);
        assert outs[..n + 1] == outs;
      }
    }

    /** When value `k` is the first refused one, its exception is raised and
        the query holds the clauses of the values before it, followed by what
        value `k` handed over before it raised (an open group and the `or`s
        of its pieces before the one that failed to convert, or nothing). */
    lemma ExtractStops(values: seq<string>, exact: bool, k: nat)
      requires k < |values| && SearchClauses(values[k], exact).1.Some?
      requires forall j :: 0 <= j < k ==> SearchClauses(values[j], exact).1.None?
      ensures ExtractClauses(values, exact)
              == (ConcatClauses(values[..k], exact) + SearchClauses(values[k], exact).0, SearchClauses(values[k], exact).1)
    {
      var outs := Outcomes(values, exact);
      ExtractAccepted(values[..k], exact);
      OutcomesPrefix(values, k, exact);
      CollectStep(outs, k);
      CollectAfterError(outs, k + 1);
    }

    /** `extractSearchableAttribute`: every value of the key's request
        parameter (`None` when the request has none) in order, until one is
        refused. */
    method ExtractSearchableAttribute(values: Option<seq<string>>, exact: bool, query: Query<Property<T>>)
      returns (r: Outcome<(), FrameworkError>)
      modifies query
      ensures values.None? ==> r.Ok? && query.clauses == old(query.clauses)
      ensures values.Some? ==>
        var ex := ExtractClauses(values.value, exact);
        && query.clauses == old(query.clauses) + ex.0
        && (r.Ok? <==> ex.1.None?)
        && (r.Err? ==> r.error == ex.1.value)
    {
      if values.None? {
        return Ok(());
      }
      r := ExtractEach(values.value, exact, query);
    }

    /** The loop of `extractSearchableAttribute` over the values. */
    method ExtractEach(vs: seq<string>, exact: bool, query: Query<Property<T>>)
      returns (r: Outcome<(), FrameworkError>)
      modifies query
      ensures query.clauses == old(query.clauses) + ExtractClauses(vs, exact).0
      ensures r.Ok? <==> ExtractClauses(vs, exact).1.None?
      ensures r.Err? ==> r.error == ExtractClauses(vs, exact).1.value
    {
      ghost var start := query.clauses;
      ghost var outs := Outcomes(vs, exact);
      assert ExtractClauses(vs, exact) == Collect(outs);
      for i := 0 to |vs|
        invariant Collect(outs[..i]).1.None?
        invariant query.clauses == start + Collect(outs[..i]).0
      {
        ghost var prev := Collect(outs[..i]).0;
        var res := ExtractOne(vs, i, exact, query, outs);
        CollectStep(outs, i);
        assert start + prev + outs[i].0 == start + (prev + outs[i].0);
        if res.Err? {
          CollectAfterError(outs, i + 1);
          return res;
        }
      }
      assert outs[..|vs|] == outs;
      r := Ok(());
    }

    /** One turn of that loop: what value `i` hands to the query, and its
        exception. */
    method ExtractOne(vs: seq<string>, i: nat, exact: bool, query: Query<Property<T>>,
                      ghost outs: seq<(seq<Clause<Property<T>>>, Option<FrameworkError>)>)
      returns (res: Outcome<(), FrameworkError>)
      requires outs == Outcomes(vs, exact) && i < |vs|
      modifies query
      ensures query.clauses == old(query.clauses) + outs[i].0
      ensures res.Ok? <==> outs[i].1.None?
      ensures res.Err? ==> res.error == outs[i].1.value
    {
      res := DetermineSearchType(vs[i], exact, query);
    }

    // ----- indexing -----

    /** `index(entity, value)`: for a node or relationship with an index, the
        old mapping of the key's database name is removed and the value added
        when it is non-null or the key is indexed when empty; an exception
        from the index is swallowed; other elements are not indexed. */
    method IndexValue<N(==), R(==), X>(entity: GraphEntity<N, R>, value: Option<X>,
                               nodeIndex: Option<Index<N, X>>, relIndex: Option<Index<R, X>>, fault: IndexFault)
      requires nodeIndex.Some? && relIndex.Some? ==> nodeIndex.value as object != relIndex.value as object
      modifies if nodeIndex.Some? then {nodeIndex.value} else {}
      modifies if relIndex.Some? then {relIndex.value} else {}
      ensures entity.NodeEntity? && nodeIndex.Some? ==>
        nodeIndex.value.entries == IndexUpdate(old(nodeIndex.value.entries), entity.node, dbName, value, indexedWhenEmpty, fault)
      ensures entity.RelationshipEntity? && relIndex.Some? ==>
        relIndex.value.entries == IndexUpdate(old(relIndex.value.entries), entity.rel, dbName, value, indexedWhenEmpty, fault)
      ensures !entity.NodeEntity? && nodeIndex.Some? ==> nodeIndex.value.entries == old(nodeIndex.value.entries)
      ensures !entity.RelationshipEntity? && relIndex.Some? ==> relIndex.value.entries == old(relIndex.value.entries)
    {
      match entity
      case NodeEntity(n) =>
        if nodeIndex.Some? {
          var index := nodeIndex.value;
          if fault != RemoveRaises {
            index.Remove(n, dbName);
            if (value.Some? || indexedWhenEmpty) && fault != AddRaises {
              index.Add(n, dbName, value);
            }
          }
        }
      case RelationshipEntity(rel) =>
        if relIndex.Some? {
          var index := relIndex.value;
          if fault != RemoveRaises {
            index.Remove(rel, dbName);
            if (value.Some? || indexedWhenEmpty) && fault != AddRaises {
              index.Add(rel, dbName, value);
            }
          }
        }
      case OtherEntity =>
    }
  }

  // ----- properties of the key as a whole -----

  /** `equals` is reflexive, symmetric and rejects null. */
  lemma EqualsReflexiveSymmetric<T>(a: Property<T>, b: Property<T>)
    ensures a.Equals(Some(a))
    ensures a.Equals(Some(b)) <==> b.Equals(Some(a))
    ensures !a.Equals(None)
  {
  }

  /** `equals` is transitive. */
  lemma EqualsTransitive<T>(a: Property<T>, b: Property<T>, c: Property<T>)
    requires a.Equals(Some(b)) && b.Equals(Some(c))
    ensures a.Equals(Some(c))
  {
  }

  /** `indexable` never holds for null or for a key without value type, and
      always holds for dates, enums and arrays whatever the index's own
      types. */
  lemma IndexableCases<T, X>(p: Property<T>, v: Option<X>, types: set<string>)
    ensures v.None? || p.hooks.valueType.None? ==> !p.Indexable(v, types)
    ensures v.Some? && p.hooks.valueType.Some?
      && (p.hooks.valueType.value.name == DATE_CLASS || p.hooks.valueType.value.isEnum || p.hooks.valueType.value.isArray)
      ==> p.Indexable(v, types)
    ensures p.Indexable(v, types) ==> p.Indexable(v, types + {"any"})
  {
  }

  /** `unique(true)` marks a fresh key unique without requiring
      synchronization, unlike `unique()`. */
  method UniqueFlagScenario(hooks: Hooks) returns (viaFlag: bool, viaBuilder: bool)
    ensures !viaFlag && viaBuilder
  {
    var a := new Property<int>.Named("name", hooks);
    var _ := a.SetUnique(true);
    assert a.unique;
    viaFlag := a.requiresSynchronization;
    var b := new Property<int>.Named("name", hooks);
    var _ := b.Unique();
    viaBuilder := b.requiresSynchronization;
  }

  /** Building a key with `indexedWhenEmpty()` then indexing a null value on
      a node stores the null; without the flag the node has no entry. */
  method IndexNullScenario(hooks: Hooks) returns (withFlag: bool, withoutFlag: bool)
    ensures withFlag && !withoutFlag
  {
    var idx := new Index<int, int>();
    var a := new Property<int>.Named("name", hooks);
    var _ := a.IndexedWhenEmpty();
    a.IndexValue<int, int, int>(NodeEntity(7), None, Some(idx), None, NoFault);
    withFlag := (7, Some("name")) in idx.entries;
    var b := new Property<int>.Named("name", hooks);
    b.IndexValue<int, int, int>(NodeEntity(7), None, Some(idx), None, NoFault);
    withoutFlag := (7, Some("name")) in idx.entries;
  }
}

/**
 * Paged materialisation of raw store records into entities.
 *
 * A raw cursor is a `seq<S>`. What the concrete factory's `instantiate(S)`
 * does (type resolution and the security check) is the function
 * `instantiate: S -> Option<T>`; `None` is the null it returns for a record
 * the security context may not see. An entity's uuid is `uuid: T -> string`.
 */
module Factory {
  import opened Wrappers
  import Text

  /** `Integer.MAX_VALUE`, the page size meaning "no paging". */
  const INTEGER_MAX_VALUE: int := 0x7fff_ffff
  const DEFAULT_PAGE_SIZE: int := INTEGER_MAX_VALUE
  const DEFAULT_PAGE: int := 1

  /** A materialised result: its items (nulls allowed, as on the
      negative-page path) and the count reported with it. */
  datatype Result<T> = Result(items: seq<Option<T>>, count: int)

  /** The errors the paging paths raise. */
  datatype FactoryError =
    | IdNotFound(offsetId: string)                       // FrameworkException with IdNotFoundToken
    | SubListOutOfRange(fromIndex: int, toIndex: int)     // thrown by List.subList

  /** `Result.EMPTY_RESULT`. */
  function EmptyResult<T>(): Result<T>
  {
    Result([], 0)
  }

  // ----- specification functions -----

  function Max(a: int, b: int): int { if a >= b then a else b }
  function Min(a: int, b: int): int { if a <= b then a else b }

  function Keep<T>(o: Option<T>): seq<T>
  {
    if o.Some? then [o.value] else []
  }

  /** The entities `instantiate` yields for the cursor, in cursor order,
      with the nulls dropped. */
  function Visible<S, T>(instantiate: S -> Option<T>, raw: seq<S>): seq<T>
    decreases |raw|
  {
    if raw == [] then []
    else Visible(instantiate, raw[..|raw| - 1]) + Keep(instantiate(raw[|raw| - 1]))
  }

  /** The positions of the cursor whose record is visible, in increasing order. */
  function VisibleIndices<S, T>(instantiate: S -> Option<T>, raw: seq<S>): seq<nat>
    decreases |raw|
  {
    if raw == [] then []
    else VisibleIndices(instantiate, raw[..|raw| - 1])
         + (if instantiate(raw[|raw| - 1]).Some? then [|raw| - 1] else [])
  }

  /** Every item wrapped as a non-null reference. */
  function Present<T>(xs: seq<T>): (r: seq<Option<T>>)
    ensures |r| == |xs| && forall k :: 0 <= k < |xs| ==> r[k] == Some(xs[k])
  {
    seq(|xs|, k requires 0 <= k < |xs| => Some(xs[k]))
  }

  /** `instantiate` applied to every record, nulls kept. */
  function InstantiateEach<S, T>(instantiate: S -> Option<T>, raw: seq<S>): (r: seq<Option<T>>)
    ensures |r| == |raw| && forall k :: 0 <= k < |raw| ==> r[k] == instantiate(raw[k])
  {
    seq(|raw|, k requires 0 <= k < |raw| => instantiate(raw[k]))
  }

  function Clamp(x: int, n: nat): (r: nat)
    ensures r <= n
  {
    if x < 0 then 0 else if x > n then n else x
  }

  /** Whether the 0-based position `p` lies inside the window of `size`
      items after the first `offset` (a negative offset counts as 0, a
      non-positive size selects nothing). */
  predicate InWindow(p: int, offset: int, size: int)
  {
    Max(offset, 0) <= p < Max(offset, 0) + Max(size, 0)
  }

  /** The items of `xs` whose position lies inside the window, in order:
      what a loop keeps that counts positions past the offset. */
  function Window<T>(xs: seq<T>, offset: int, size: int): seq<T>
    decreases |xs|
  {
    if xs == [] then []
    else Window(xs[..|xs| - 1], offset, size)
         + (if InWindow(|xs| - 1, offset, size) then [xs[|xs| - 1]] else [])
  }

  /** The first index of `xs` whose uuid is `id`. */
  function FindUuid<T>(uuid: T -> string, xs: seq<T>, id: string): (r: Option<nat>)
    ensures r.Some? ==> r.value < |xs| && uuid(xs[r.value]) == id
                        && forall k :: 0 <= k < r.value ==> uuid(xs[k]) != id
    ensures r.None? ==> forall k :: 0 <= k < |xs| ==> uuid(xs[k]) != id
    decreases |xs|
  {
    if xs == [] then None
    else if uuid(xs[0]) == id then Some(0)
    else match FindUuid(uuid, xs[1..], id)
      case None => None
      case Some(i) => Some(i + 1)
  }

  /** What `page(input, offset, pageSize)` returns: the visible items at
      positions `offset+1 .. offset+pageSize`, counted against every
      visible item of the cursor. */
  function PageResult<S, T>(instantiate: S -> Option<T>, raw: seq<S>, offset: int, pageSize: int): Result<T>
  {
    var visible := Visible(instantiate, raw);
    Result(Present(Window(visible, offset, pageSize)), |visible|)
  }

  /** The number of visible entities before a positive page: none when
      paging is off (`Integer.MAX_VALUE`), else `(page - 1) * pageSize`. */
  function PageStart(page: int, pageSize: int): int
  {
    if pageSize == INTEGER_MAX_VALUE then 0 else (page - 1) * pageSize
  }

  /** What `resultWithoutOffsetId` returns for the page and page size. */
  function ResultWithoutOffsetIdSpec<S, T>(instantiate: S -> Option<T>, raw: seq<S>, page: int, pageSize: int)
    : Outcome<Result<T>, FactoryError>
  {
    if page < 0 then
      var size := |raw|;
      var fromIndex := Max(0, size + page * pageSize);
      var toIndex := Min(size, fromIndex + pageSize);
      if fromIndex <= toIndex then Ok(Result(InstantiateEach(instantiate, raw[fromIndex..toIndex]), size))
      else Err(SubListOutOfRange(fromIndex, toIndex))
    else
      Ok(PageResult(instantiate, raw, PageStart(page, pageSize), pageSize))
  }

  /** What `resultWithOffsetId` returns: anchor the page at the first visible
      entity whose uuid is `offsetId`. */
  function ResultWithOffsetIdSpec<S, T>(instantiate: S -> Option<T>, uuid: T -> string, raw: seq<S>,
                                        offsetId: string, page: int, profilePageSize: int)
    : Outcome<Result<T>, FactoryError>
  {
    var visible := Visible(instantiate, raw);
    var pageSize := Min(|raw|, profilePageSize);
    match FindUuid(uuid, visible, offsetId)
    case None =>
      if visible == [] then Ok(Result([], |raw|)) else Err(IdNotFound(offsetId))
    case Some(i) =>
      var offset := if page > 0 then i else i + page * pageSize;
      if offset < 0 then Ok(Result(Present(visible[..i]), |raw|))
      else Ok(Result(Present(Window(visible, offset, pageSize)), |raw|))
  }

  // ----- lemmas about the specification functions -----

  lemma {:induction false} VisibleAppend<S, T>(instantiate: S -> Option<T>, a: seq<S>, b: seq<S>)
    ensures Visible(instantiate, a + b) == Visible(instantiate, a) + Visible(instantiate, b)
    decreases |b|
  {
    if b == [] {
      assert a + b == a;
    } else {
      var b' := b[..|b| - 1];
      assert (a + b)[..|a + b| - 1] == a + b';
      VisibleAppend(instantiate, a, b');
    }
  }

  /** `bulkInstantiate` keeps cursor order and drops exactly the records
      `instantiate` maps to null: the k-th visible entity is the one made
      from the k-th visible position, the positions increase, and a
      position is listed iff its record is visible. */
  lemma VisibleIsFilter<S, T>(instantiate: S -> Option<T>, raw: seq<S>)
    ensures var vis, idx := Visible(instantiate, raw), VisibleIndices(instantiate, raw);
      && |vis| == |idx|
      && (forall k :: 0 <= k < |idx| ==> idx[k] < |raw| && instantiate(raw[idx[k]]) == Some(vis[k]))
      && (forall k, l :: 0 <= k < l < |idx| ==> idx[k] < idx[l])
      && (forall j :: 0 <= j < |raw| ==> (j in idx <==> instantiate(raw[j]).Some?))
  {
    IndicesMatch(instantiate, raw);
    IndicesIncrease(instantiate, raw);
    IndicesComplete(instantiate, raw);
  }

  lemma {:induction false} IndicesMatch<S, T>(instantiate: S -> Option<T>, raw: seq<S>)
    ensures var vis, idx := Visible(instantiate, raw), VisibleIndices(instantiate, raw);
      && |vis| == |idx|
      && forall k :: 0 <= k < |idx| ==> idx[k] < |raw| && instantiate(raw[idx[k]]) == Some(vis[k])
    decreases |raw|
  {
    if raw != [] {
      var init := raw[..|raw| - 1];
      IndicesMatch(instantiate, init);
      var idx0 := VisibleIndices(instantiate, init);
      var vis0 := Visible(instantiate, init);
      var idx := VisibleIndices(instantiate, raw);
      var vis := Visible(instantiate, raw);
      forall k | 0 <= k < |idx|
        ensures idx[k] < |raw| && instantiate(raw[idx[k]]) == Some(vis[k])
      {
        if k < |idx0| {
          assert idx[k] == idx0[k] && vis[k] == vis0[k];
          assert raw[idx0[k]] == init[idx0[k]];
        }
      }
    }
  }

  lemma {:induction false} IndicesBelow<S, T>(instantiate: S -> Option<T>, raw: seq<S>)
    ensures forall k :: 0 <= k < |VisibleIndices(instantiate, raw)| ==> VisibleIndices(instantiate, raw)[k] < |raw|
    decreases |raw|
  {
    if raw != [] {
      IndicesBelow(instantiate, raw[..|raw| - 1]);
    }
  }

  lemma {:induction false} IndicesIncrease<S, T>(instantiate: S -> Option<T>, raw: seq<S>)
    ensures forall k, l :: 0 <= k < l < |VisibleIndices(instantiate, raw)| ==>
      VisibleIndices(instantiate, raw)[k] < VisibleIndices(instantiate, raw)[l]
    decreases |raw|
  {
    if raw != [] {
      var init := raw[..|raw| - 1];
      IndicesIncrease(instantiate, init);
      IndicesBelow(instantiate, init);
      var idx := VisibleIndices(instantiate, raw);
      var idx0 := VisibleIndices(instantiate, init);
      var last := |raw| - 1;
      assert idx == idx0 + (if instantiate(raw[last]).Some? then [last] else []);
      forall k, l | 0 <= k < l < |idx|
        ensures idx[k] < idx[l]
      {
        if l < |idx0| {
          assert idx[k] == idx0[k] && idx[l] == idx0[l];
          assert idx0[k] < idx0[l];
        } else {
          assert idx[k] == idx0[k] && idx[l] == last;
          assert idx0[k] < |init|;
        }
      }
    }
  }

  lemma {:induction false} IndicesComplete<S, T>(instantiate: S -> Option<T>, raw: seq<S>)
    ensures var idx := VisibleIndices(instantiate, raw);
      forall j :: 0 <= j < |raw| ==> (j in idx <==> instantiate(raw[j]).Some?)
    decreases |raw|
  {
    if raw != [] {
      var init := raw[..|raw| - 1];
      IndicesComplete(instantiate, init);
      IndicesBelow(instantiate, init);
      var idx := VisibleIndices(instantiate, raw);
      var idx0 := VisibleIndices(instantiate, init);
      var last := |raw| - 1;
      assert idx == idx0 + (if instantiate(raw[last]).Some? then [last] else []);
      forall j | 0 <= j < |raw|
        ensures j in idx <==> instantiate(raw[j]).Some?
      {
        if j < |init| {
          assert raw[j] == init[j];
          assert j in idx <==> j in idx0;
        } else {
          assert j !in idx0;
        }
      }
    }
  }

  lemma PrefixSnoc<T>(xs: seq<T>, k: nat)
    requires k < |xs|
    ensures xs[..k + 1] == xs[..k] + [xs[k]]
  {
  }

  /** A window that ends inside the first `k` items is a window of them. */
  lemma WindowOfTake<T>(xs: seq<T>, k: nat, offset: int, size: int)
    requires Max(offset, 0) + Max(size, 0) <= k <= |xs|
    ensures Window(xs[..k], offset, size) == Window(xs, offset, size)
  {
    WindowOfPrefix(xs[..k], xs[k..], offset, size);
    assert xs[..k] + xs[k..] == xs;
  }

  /** One more record extends the visible entities by that record's entity, if any. */
  lemma VisibleSnoc<S, T>(instantiate: S -> Option<T>, raw: seq<S>, j: nat)
    requires j < |raw|
    ensures Visible(instantiate, raw[..j + 1]) == Visible(instantiate, raw[..j]) + Keep(instantiate(raw[j]))
  {
    assert raw[..j + 1][..j] == raw[..j];
  }

  /** No more entities than records. */
  lemma {:induction false} VisibleLength<S, T>(instantiate: S -> Option<T>, raw: seq<S>)
    ensures |Visible(instantiate, raw)| <= |raw|
    decreases |raw|
  {
    if raw != [] {
      VisibleLength(instantiate, raw[..|raw| - 1]);
    }
  }

  /** The window is the contiguous slice of the items at positions
      `max(offset,0) .. max(offset,0)+max(size,0)`, cut at the end of `xs`. */
  lemma {:induction false} WindowIsSlice<T>(xs: seq<T>, offset: int, size: int)
    ensures Window(xs, offset, size) == xs[Clamp(offset, |xs|)..Clamp(Max(offset, 0) + Max(size, 0), |xs|)]
    decreases |xs|
  {
    if xs != [] {
      var n := |xs| - 1;
      var init := xs[..n];
      WindowIsSlice(init, offset, size);
      var o, e := Max(offset, 0), Max(offset, 0) + Max(size, 0);
      var start, stop := Clamp(offset, n), Clamp(e, n);
      if InWindow(n, offset, size) {
        assert stop == n && Clamp(offset, n + 1) == start && Clamp(e, n + 1) == n + 1;
        assert xs[start..n + 1] == init[start..n] + [xs[n]];
      } else if o > n {
        assert Clamp(offset, n + 1) == Clamp(e, n + 1);
      } else {
        assert Clamp(offset, n + 1) == start && Clamp(e, n + 1) == stop;
        assert xs[start..stop] == init[start..stop];
      }
    }
  }

  lemma WindowAt<T>(xs: seq<T>, offset: int, size: int)
    ensures |Window(xs, offset, size)| <= Max(size, 0)
    ensures forall k :: 0 <= k < |Window(xs, offset, size)| ==>
              Max(offset, 0) + k < |xs| && Window(xs, offset, size)[k] == xs[Max(offset, 0) + k]
    ensures |Window(xs, offset, size)| == Min(Max(size, 0), Max(|xs| - Max(offset, 0), 0))
  {
    WindowIsSlice(xs, offset, size);
  }

  /** Appending an item whose position lies inside the window grows the window by it. */
  lemma WindowGrow<T>(xs: seq<T>, x: T, offset: int, size: int)
    requires InWindow(|xs|, offset, size)
    ensures Window(xs + [x], offset, size) == Window(xs, offset, size) + [x]
  {
    assert (xs + [x])[..|xs|] == xs;
  }

  /** Appending an item whose position lies outside the window leaves it as it was. */
  lemma WindowSame<T>(xs: seq<T>, x: T, offset: int, size: int)
    requires !InWindow(|xs|, offset, size)
    ensures Window(xs + [x], offset, size) == Window(xs, offset, size)
  {
    assert (xs + [x])[..|xs|] == xs;
  }

  /** Where the scan for the offsetId entity stops: at that entity, or at
      the end of the cursor without finding it. */
  lemma ScanEnd<S, T>(instantiate: S -> Option<T>, uuid: T -> string, source: seq<S>, it: nat, seen: seq<T>,
                      i: nat, gotOffset: bool, id: string)
    requires it <= |source| && seen == Visible(instantiate, source[..it])
    requires i <= |seen| && forall k :: 0 <= k < i ==> uuid(seen[k]) != id
    requires gotOffset ==> i + 1 == |seen| && uuid(seen[i]) == id
    requires !gotOffset ==> it == |source| && i == |seen|
    ensures Visible(instantiate, source) == seen + Visible(instantiate, source[it..])
    ensures gotOffset ==> FindUuid(uuid, Visible(instantiate, source), id) == Some(i)
    ensures !gotOffset ==> FindUuid(uuid, Visible(instantiate, source), id) == None
                           && seen == Visible(instantiate, source)
  {
    VisibleAppend(instantiate, source[..it], source[it..]);
    assert source[..it] + source[it..] == source;
    var visible := Visible(instantiate, source);
    if gotOffset {
      assert visible[..i + 1] == seen;
      FindUuidFirst(uuid, visible, id, i);
    } else {
      assert source[it..] == [];
      assert visible == seen;
    }
  }

  /** One more record of the rest of the cursor extends what was collected
      by its entity, if it has one. */
  lemma ContinueStep<S, T>(instantiate: S -> Option<T>, seen: seq<T>, rest: seq<S>, j: nat, sofar: seq<T>)
    requires j < |rest| && sofar == seen + Visible(instantiate, rest[..j])
    ensures seen + Visible(instantiate, rest[..j + 1]) == sofar + Keep(instantiate(rest[j]))
  {
    VisibleSnoc(instantiate, rest, j);
  }

  /** Once the window is full, the rest of the cursor changes nothing. */
  lemma WindowFull<S, T>(instantiate: S -> Option<T>, seen: seq<T>, rest: seq<S>, j: nat, offset: int, size: int)
    requires j <= |rest|
    requires Max(offset, 0) + Max(size, 0) <= |seen + Visible(instantiate, rest[..j])|
    ensures Window(seen + Visible(instantiate, rest), offset, size)
      == Window(seen + Visible(instantiate, rest[..j]), offset, size)
  {
    var sofar := seen + Visible(instantiate, rest[..j]);
    VisibleAppend(instantiate, rest[..j], rest[j..]);
    assert rest[..j] + rest[j..] == rest;
    assert seen + Visible(instantiate, rest) == sofar + Visible(instantiate, rest[j..]);
    WindowOfPrefix(sofar, Visible(instantiate, rest[j..]), offset, size);
  }

  /** A window that ends inside a prefix is a window of that prefix. */
  lemma WindowOfPrefix<T>(xs: seq<T>, rest: seq<T>, offset: int, size: int)
    requires Max(offset, 0) + Max(size, 0) <= |xs|
    ensures Window(xs + rest, offset, size) == Window(xs, offset, size)
  {
    var ys := xs + rest;
    WindowIsSlice(ys, offset, size);
    WindowIsSlice(xs, offset, size);
    assert ys[Clamp(offset, |ys|)..Clamp(Max(offset, 0) + Max(size, 0), |ys|)]
        == xs[Clamp(offset, |xs|)..Clamp(Max(offset, 0) + Max(size, 0), |xs|)];
  }

  /** `instantiate(input)` with an offsetId that no visible entity carries
      fails with `IdNotFound(offsetId)` as soon as something was visible. */
  lemma OffsetIdNotFound<S, T>(instantiate: S -> Option<T>, uuid: T -> string, raw: seq<S>,
                               offsetId: string, page: int, pageSize: int)
    requires Visible(instantiate, raw) != []
    requires forall t :: t in Visible(instantiate, raw) ==> uuid(t) != offsetId
    ensures ResultWithOffsetIdSpec(instantiate, uuid, raw, offsetId, page, pageSize) == Err(IdNotFound(offsetId))
  {
  }

  /** With a positive page the offsetId page starts with the offsetId entity
      itself and holds at most `min(rawSize, pageSize)` entities, the
      visible ones that follow it in cursor order; the count is the raw size. */
  lemma OffsetIdForwardPage<S, T>(instantiate: S -> Option<T>, uuid: T -> string, raw: seq<S>,
                                  offsetId: string, page: int, profilePageSize: int, i: nat)
    requires page > 0 && profilePageSize > 0
    requires FindUuid(uuid, Visible(instantiate, raw), offsetId) == Some(i)
    ensures var r := ResultWithOffsetIdSpec(instantiate, uuid, raw, offsetId, page, profilePageSize);
      var vis := Visible(instantiate, raw);
      && r.Ok?
      && r.value.count == |raw|
      && 1 <= |r.value.items| <= Min(|raw|, profilePageSize)
      && r.value.items[0] == Some(vis[i])
      && forall k :: 0 <= k < |r.value.items| ==> i + k < |vis| && r.value.items[k] == Some(vis[i + k])
  {
    var vis := Visible(instantiate, raw);
    VisibleLength(instantiate, raw);
    WindowAt(vis, i, Min(|raw|, profilePageSize));
  }

  /** A negative page that reaches before the start of the visible list
      returns the visible entities strictly before the offsetId entity. */
  lemma OffsetIdBeforeStart<S, T>(instantiate: S -> Option<T>, uuid: T -> string, raw: seq<S>,
                                  offsetId: string, page: int, profilePageSize: int, i: nat)
    requires page <= 0
    requires FindUuid(uuid, Visible(instantiate, raw), offsetId) == Some(i)
    requires i + page * Min(|raw|, profilePageSize) < 0
    ensures ResultWithOffsetIdSpec(instantiate, uuid, raw, offsetId, page, profilePageSize)
         == Ok(Result(Present(Visible(instantiate, raw)[..i]), |raw|))
  {
  }

  /** With page >= 1 and a finite page size the result is the page-th page
      of `pageSize` visible entities; the count covers every visible entity. */
  lemma PositivePageIsKthPage<S, T>(instantiate: S -> Option<T>, raw: seq<S>, page: int, pageSize: int)
    requires page >= 1 && 0 < pageSize < INTEGER_MAX_VALUE
    ensures var r := ResultWithoutOffsetIdSpec(instantiate, raw, page, pageSize);
      var vis := Visible(instantiate, raw);
      var start := PageStart(page, pageSize);
      && start == (page - 1) * pageSize
      && r.Ok?
      && r.value.count == |vis|
      && |r.value.items| <= pageSize
      && (forall k :: 0 <= k < |r.value.items| ==>
            start + k < |vis| && r.value.items[k] == Some(vis[start + k]))
      && (start + pageSize <= |vis| ==> |r.value.items| == pageSize)
  {
    var start := PageStart(page, pageSize);
    MulNonNegative(page - 1, pageSize);
    WindowAt(Visible(instantiate, raw), start, pageSize);
  }

  lemma MulNonNegative(a: int, b: int)
    requires a >= 0 && b >= 0
    ensures a * b >= 0
  {
  }

  /** Without paging (the default `Integer.MAX_VALUE` page size) every visible
      entity is returned, in cursor order, exactly once. */
  lemma UnpagedIsAllVisible<S, T>(instantiate: S -> Option<T>, raw: seq<S>, page: int)
    requires page >= 0 && |raw| <= INTEGER_MAX_VALUE
    ensures ResultWithoutOffsetIdSpec(instantiate, raw, page, DEFAULT_PAGE_SIZE)
         == Ok(Result(Present(Visible(instantiate, raw)), |Visible(instantiate, raw)|))
  {
    var vis := Visible(instantiate, raw);
    VisibleLength(instantiate, raw);
    WindowIsSlice(vis, 0, DEFAULT_PAGE_SIZE);
    assert vis[0..|vis|] == vis;
  }

  /** A negative page over N raw records with a non-negative page size holds
      one entry (null or not) per raw record in
      `[max(0, N + page*pageSize), min(N, that + pageSize))`; the count is N. */
  lemma NegativePageIsTailSlice<S, T>(instantiate: S -> Option<T>, raw: seq<S>, page: int, pageSize: int)
    requires page < 0 && pageSize >= 0
    ensures var r := ResultWithoutOffsetIdSpec(instantiate, raw, page, pageSize);
      var fromIndex := Max(0, |raw| + page * pageSize);
      && r.Ok?
      && r.value.count == |raw|
      && |r.value.items| == Min(|raw|, fromIndex + pageSize) - fromIndex
      && forall k :: 0 <= k < |r.value.items| ==> r.value.items[k] == instantiate(raw[fromIndex + k])
  {
    assert page * pageSize <= 0;
  }

  // ----- the factory -----

  /** `Factory.FactoryProfile`: the paging and visibility settings. */
  class FactoryProfile {
    var includeDeletedAndHidden: bool
    var offsetId: Option<string>
    var publicOnly: bool
    var pageSize: int
    var page: int

    constructor ()
      ensures includeDeletedAndHidden && offsetId == None && !publicOnly
      ensures pageSize == DEFAULT_PAGE_SIZE && page == DEFAULT_PAGE
    {
      includeDeletedAndHidden := true;
      offsetId := None;
      publicOnly := false;
      pageSize := DEFAULT_PAGE_SIZE;
      page := DEFAULT_PAGE;
    }

    constructor WithVisibility(includeDeletedAndHidden: bool, publicOnly: bool)
      ensures this.includeDeletedAndHidden == includeDeletedAndHidden && this.publicOnly == publicOnly
      ensures offsetId == None && pageSize == DEFAULT_PAGE_SIZE && page == DEFAULT_PAGE
    {
      this.includeDeletedAndHidden := includeDeletedAndHidden;
      this.offsetId := None;
      this.publicOnly := publicOnly;
      this.pageSize := DEFAULT_PAGE_SIZE;
      this.page := DEFAULT_PAGE;
    }

    constructor WithPaging(includeDeletedAndHidden: bool, publicOnly: bool, pageSize: int, page: int, offsetId: Option<string>)
      ensures this.includeDeletedAndHidden == includeDeletedAndHidden && this.publicOnly == publicOnly
      ensures this.pageSize == pageSize && this.page == page && this.offsetId == offsetId
    {
      this.includeDeletedAndHidden := includeDeletedAndHidden;
      this.offsetId := offsetId;
      this.publicOnly := publicOnly;
      this.pageSize := pageSize;
      this.page := page;
    }

    method SetIncludeDeletedAndHidden(includeDeletedAndHidden: bool)
      modifies this
      ensures this.includeDeletedAndHidden == includeDeletedAndHidden
      ensures offsetId == old(offsetId) && publicOnly == old(publicOnly) && pageSize == old(pageSize) && page == old(page)
    {
      this.includeDeletedAndHidden := includeDeletedAndHidden;
    }

    method SetOffsetId(offsetId: Option<string>)
      modifies this
      ensures this.offsetId == offsetId
      ensures includeDeletedAndHidden == old(includeDeletedAndHidden) && publicOnly == old(publicOnly)
      ensures pageSize == old(pageSize) && page == old(page)
    {
      this.offsetId := offsetId;
    }

    method SetPublicOnly(publicOnly: bool)
      modifies this
      ensures this.publicOnly == publicOnly
      ensures includeDeletedAndHidden == old(includeDeletedAndHidden) && offsetId == old(offsetId)
      ensures pageSize == old(pageSize) && page == old(page)
    {
      this.publicOnly := publicOnly;
    }

    method SetPageSize(pageSize: int)
      modifies this
      ensures this.pageSize == pageSize
      ensures includeDeletedAndHidden == old(includeDeletedAndHidden) && offsetId == old(offsetId)
      ensures publicOnly == old(publicOnly) && page == old(page)
    {
      this.pageSize := pageSize;
    }

    method SetPage(page: int)
      modifies this
      ensures this.page == page
      ensures includeDeletedAndHidden == old(includeDeletedAndHidden) && offsetId == old(offsetId)
      ensures publicOnly == old(publicOnly) && pageSize == old(pageSize)
    {
      this.page := page;
    }
  }

  /** `Factory<S, T>` with its profile. */
  class Factory<S, T> {
    const instantiate: S -> Option<T>
    const uuid: T -> string
    const profile: FactoryProfile

    /** `Factory(securityContext)`: the default profile. */
    constructor (instantiate: S -> Option<T>, uuid: T -> string)
      ensures this.instantiate == instantiate && this.uuid == uuid && fresh(profile)
      ensures profile.includeDeletedAndHidden && profile.offsetId == None && !profile.publicOnly
      ensures profile.pageSize == DEFAULT_PAGE_SIZE && profile.page == DEFAULT_PAGE
    {
      this.instantiate := instantiate;
      this.uuid := uuid;
      profile := new FactoryProfile();
    }

    /** `Factory(securityContext, includeDeletedAndHidden, publicOnly)`. */
    constructor WithVisibility(instantiate: S -> Option<T>, uuid: T -> string, includeDeletedAndHidden: bool, publicOnly: bool)
      ensures this.instantiate == instantiate && this.uuid == uuid && fresh(profile)
      ensures profile.includeDeletedAndHidden == includeDeletedAndHidden && profile.publicOnly == publicOnly
      ensures profile.offsetId == None && profile.pageSize == DEFAULT_PAGE_SIZE && profile.page == DEFAULT_PAGE
    {
      this.instantiate := instantiate;
      this.uuid := uuid;
      profile := new FactoryProfile.WithVisibility(includeDeletedAndHidden, publicOnly);
    }

    /** `Factory(securityContext, pageSize, page, offsetId)`. */
    constructor WithPaging(instantiate: S -> Option<T>, uuid: T -> string, pageSize: int, page: int, offsetId: Option<string>)
      ensures this.instantiate == instantiate && this.uuid == uuid && fresh(profile)
      ensures profile.includeDeletedAndHidden && !profile.publicOnly
      ensures profile.pageSize == pageSize && profile.page == page && profile.offsetId == offsetId
    {
      this.instantiate := instantiate;
      this.uuid := uuid;
      var p := new FactoryProfile();
      p.SetPageSize(pageSize);
      p.SetPage(page);
      p.SetOffsetId(offsetId);
      profile := p;
    }

    /** `Factory(securityContext, includeDeletedAndHidden, publicOnly, pageSize, page, offsetId)`. */
    constructor WithProfile(instantiate: S -> Option<T>, uuid: T -> string, includeDeletedAndHidden: bool,
                            publicOnly: bool, pageSize: int, page: int, offsetId: Option<string>)
      ensures this.instantiate == instantiate && this.uuid == uuid && fresh(profile)
      ensures profile.includeDeletedAndHidden == includeDeletedAndHidden && profile.publicOnly == publicOnly
      ensures profile.pageSize == pageSize && profile.page == page && profile.offsetId == offsetId
    {
      this.instantiate := instantiate;
      this.uuid := uuid;
      profile := new FactoryProfile.WithPaging(includeDeletedAndHidden, publicOnly, pageSize, page, offsetId);
    }

    method SetPage(page: int)
      modifies profile
      ensures profile.page == page && profile.pageSize == old(profile.pageSize)
      ensures profile.offsetId == old(profile.offsetId)
      ensures profile.includeDeletedAndHidden == old(profile.includeDeletedAndHidden)
      ensures profile.publicOnly == old(profile.publicOnly)
    {
      profile.SetPage(page);
    }

    method SetPageSize(pageSize: int)
      modifies profile
      ensures profile.pageSize == pageSize && profile.page == old(profile.page)
      ensures profile.offsetId == old(profile.offsetId)
      ensures profile.includeDeletedAndHidden == old(profile.includeDeletedAndHidden)
      ensures profile.publicOnly == old(profile.publicOnly)
    {
      profile.SetPageSize(pageSize);
    }

    /** `bulkInstantiate`: every visible entity, unpaged, in cursor order. */
    method BulkInstantiate(input: Option<seq<S>>) returns (nodes: seq<T>)
      ensures nodes == if input.None? then [] else Visible(instantiate, input.value)
    {
      nodes := [];
      if input.Some? && |input.value| > 0 {
        var raw := input.value;
        for j := 0 to |raw|
          invariant nodes == Visible(instantiate, raw[..j])
        {
          VisibleSnoc(instantiate, raw, j);
          var n := instantiate(raw[j]);
          if n.Some? {
            nodes := nodes + [n.value];
          }
        }
        assert raw[..|raw|] == raw;
      }
    }

    /** `instantiateAll`: every visible entity; the count is how many there are. */
    method InstantiateAll(input: Option<seq<S>>) returns (r: Result<T>)
      ensures var vis := if input.None? then [] else Visible(instantiate, input.value);
        r.items == Present(vis) && r.count == |vis|
    {
      var objects := BulkInstantiate(input);
      r := Result(Present(objects), |objects|);
    }

    /** `read`: drain the cursor into a list. */
    method Read(input: seq<S>) returns (nodes: seq<S>)
      ensures nodes == input
    {
      nodes := [];
      var it := 0;
      while it < |input|
        invariant 0 <= it <= |input| && nodes == input[..it]
      {
        nodes := nodes + [input[it]];
        it := it + 1;
      }
    }

    /** `page(input, offset, pageSize)`: keeps iterating after the page is
        full, so the count covers the whole cursor. */
    method Page(input: seq<S>, offset: int, pageSize: int) returns (r: Result<T>)
      ensures r == PageResult(instantiate, input, offset, pageSize)
    {
      var nodes: seq<T> := [];
      var position, count, overallCount := 0, 0, 0;
      var pageFull := false;
      ghost var start := Max(offset, 0);
      ghost var seen: seq<T> := [];
      for j := 0 to |input|
        invariant seen == Visible(instantiate, input[..j])
        invariant position == overallCount == |seen|
        invariant count == Max(position - start, 0)
        invariant pageFull == (count > Max(pageSize, 0))
        invariant nodes == Window(seen, offset, pageSize)
      {
        VisibleSnoc(instantiate, input, j);
        var node := instantiate(input[j]);
        if node.Some? {
          overallCount := overallCount + 1;
          position := position + 1;
          if position > offset {
            count := count + 1;
            if count > pageSize {
              pageFull := true;
            }
            if !pageFull {
              WindowGrow(seen, node.value, offset, pageSize);
              nodes := nodes + [node.value];
            } else {
              WindowSame(seen, node.value, offset, pageSize);
            }
          } else {
            WindowSame(seen, node.value, offset, pageSize);
          }
          seen := seen + [node.value];
        }
      }
      assert input[..|input|] == input;
      r := Result(Present(nodes), overallCount);
    }

    /** `resultWithoutOffsetId`: a tail slice of the raw list for a negative
        page, otherwise `page` from the page's start offset. */
    method ResultWithoutOffsetId(input: seq<S>) returns (r: Outcome<Result<T>, FactoryError>)
      ensures r == ResultWithoutOffsetIdSpec(instantiate, input, profile.page, profile.pageSize)
    {
      var pageSize := profile.pageSize;
      var page := profile.page;
      var fromIndex: int;
      if page < 0 {
        var rawNodes := Read(input);
        var size := |rawNodes|;
        fromIndex := Max(0, size + page * pageSize);
        var toIndex := Min(size, fromIndex + pageSize);
        if fromIndex > toIndex {
          return Err(SubListOutOfRange(fromIndex, toIndex));
        }
        var nodes: seq<Option<T>> := [];
        for k := fromIndex to toIndex
          invariant nodes == InstantiateEach(instantiate, rawNodes[fromIndex..k])
        {
          nodes := nodes + [instantiate(rawNodes[k])];
        }
        r := Ok(Result(nodes, size));
      } else {
        fromIndex := PageStart(page, pageSize);
        var p := Page(input, fromIndex, pageSize);
        r := Ok(p);
      }
    }

    /** The first loop of `resultWithOffsetId`: instantiate records until the
        first visible entity with the offsetId has been collected. */
    method ScanToOffset(source: seq<S>, offsetId: string, page: int, pageSize: int)
      returns (nodesUpToOffset: seq<T>, it: nat, i: nat, gotOffset: bool, offset: int)
      ensures it <= |source|
      ensures Visible(instantiate, source) == nodesUpToOffset + Visible(instantiate, source[it..])
      ensures gotOffset ==> FindUuid(uuid, Visible(instantiate, source), offsetId) == Some(i)
                            && |nodesUpToOffset| == i + 1
                            && offset == (if page > 0 then i else i + page * pageSize)
      ensures !gotOffset ==> FindUuid(uuid, Visible(instantiate, source), offsetId) == None
                             && nodesUpToOffset == Visible(instantiate, source) && offset == 0
    {
      nodesUpToOffset, it, i, gotOffset, offset := [], 0, 0, false, 0;
      while it < |source| && !gotOffset
        invariant 0 <= it <= |source|
        invariant nodesUpToOffset == Visible(instantiate, source[..it])
        invariant i <= |nodesUpToOffset|
        invariant forall k :: 0 <= k < i ==> uuid(nodesUpToOffset[k]) != offsetId
        invariant !gotOffset ==> i == |nodesUpToOffset| && offset == 0
        invariant gotOffset ==> i + 1 == |nodesUpToOffset| && uuid(nodesUpToOffset[i]) == offsetId
                                && offset == (if page > 0 then i else i + page * pageSize)
      {
        VisibleSnoc(instantiate, source, it);
        var n := instantiate(source[it]);
        it := it + 1;
        if n.None? {
          continue;
        }
        nodesUpToOffset := nodesUpToOffset + [n.value];
        if uuid(n.value) != offsetId {
          i := i + 1;
          continue;
        }
        gotOffset := true;
        offset := if page > 0 then i else i + page * pageSize;
      }
      ScanEnd(instantiate, uuid, source, it, nodesUpToOffset, i, gotOffset, offsetId);
    }

    /** The second loop of `resultWithOffsetId`: take the window from the
        entities already collected; `done` when the page filled up among them. */
    static method TakeCollected(nodesUpToOffset: seq<T>, offset: int, pageSize: int)
      returns (elements: seq<T>, position: int, count: int, done: bool)
      ensures elements == Window(nodesUpToOffset, offset, pageSize)
      ensures done ==> Max(offset, 0) + Max(pageSize, 0) < |nodesUpToOffset|
      ensures !done ==> position == |nodesUpToOffset| && count == Max(position - Max(offset, 0), 0)
                        && count <= Max(pageSize, 0)
    {
      elements, position, count, done := [], 0, 0, false;
      for k := 0 to |nodesUpToOffset|
        invariant position == k && count == Max(position - Max(offset, 0), 0) && count <= Max(pageSize, 0)
        invariant elements == Window(nodesUpToOffset[..k], offset, pageSize)
      {
        PrefixSnoc(nodesUpToOffset, k);
        var node := nodesUpToOffset[k];
        position := position + 1;
        if position > offset {
          count := count + 1;
          if count > pageSize {
            WindowOfTake(nodesUpToOffset, k, offset, pageSize);
            done := true;
            return;
          }
          WindowGrow(nodesUpToOffset[..k], node, offset, pageSize);
          elements := elements + [node];
        } else {
          WindowSame(nodesUpToOffset[..k], node, offset, pageSize);
        }
      }
      assert nodesUpToOffset[..|nodesUpToOffset|] == nodesUpToOffset;
    }

    /** The third loop of `resultWithOffsetId`: keep instantiating the rest
        of the cursor until the window after `seen` is complete. */
    method ContinueFrom(rest: seq<S>, seen: seq<T>, offset: int, pageSize: int,
                        position0: int, count0: int, elements0: seq<T>)
      returns (elements: seq<T>)
      requires position0 == |seen| && count0 == Max(position0 - Max(offset, 0), 0) && count0 <= Max(pageSize, 0)
      requires elements0 == Window(seen, offset, pageSize)
      ensures elements == Window(seen + Visible(instantiate, rest), offset, pageSize)
    {
      var position, count := position0, count0;
      elements := elements0;
      ghost var sofar := seen;
      for j := 0 to |rest|
        invariant sofar == seen + Visible(instantiate, rest[..j])
        invariant position == |sofar|
        invariant count == Max(position - Max(offset, 0), 0) && count <= Max(pageSize, 0)
        invariant elements == Window(sofar, offset, pageSize)
      {
        ContinueStep(instantiate, seen, rest, j, sofar);
        var n := instantiate(rest[j]);
        if n.Some? {
          position := position + 1;
          if position > offset {
            count := count + 1;
            if count > pageSize {
              WindowFull(instantiate, seen, rest, j, offset, pageSize);
              return;
            }
            WindowGrow(sofar, n.value, offset, pageSize);
            elements := elements + [n.value];
          } else {
            WindowSame(sofar, n.value, offset, pageSize);
          }
          sofar := sofar + [n.value];
        }
      }
      assert rest[..|rest|] == rest;
    }

    /** `resultWithOffsetId`: find the offsetId entity among the visible
        ones, then page from it (or, for a negative page, back from it). */
    method ResultWithOffsetId(input: seq<S>, offsetId: string) returns (r: Outcome<Result<T>, FactoryError>)
      ensures r == ResultWithOffsetIdSpec(instantiate, uuid, input, offsetId, profile.page, profile.pageSize)
    {
      var source := input;
      var size := |source|;
      var pageSize := Min(size, profile.pageSize);
      var page := profile.page;

      var nodesUpToOffset, it, i, gotOffset, offset := ScanToOffset(source, offsetId, page, pageSize);
      if |nodesUpToOffset| > 0 && !gotOffset {
        return Err(IdNotFound(offsetId));
      }
      if offset < 0 {
        // the offsetId entity itself is dropped
        nodesUpToOffset := nodesUpToOffset[..|nodesUpToOffset| - 1];
        assert nodesUpToOffset == Visible(instantiate, source)[..i];
        return Ok(Result(Present(nodesUpToOffset), size));
      }
      var elements, position, count, done := TakeCollected(nodesUpToOffset, offset, pageSize);
      if done {
        WindowOfPrefix(nodesUpToOffset, Visible(instantiate, source[it..]), offset, pageSize);
        return Ok(Result(Present(elements), size));
      }
      elements := ContinueFrom(source[it..], nodesUpToOffset, offset, pageSize, position, count, elements);
      return Ok(Result(Present(elements), size));
    }

    /** `instantiate(ResourceIterable)`: the empty result for a null input,
        the offsetId path exactly when an offsetId is set. */
    method Instantiate(input: Option<seq<S>>) returns (r: Outcome<Result<T>, FactoryError>)
      ensures input.None? ==> r == Ok(EmptyResult())
      ensures input.Some? && profile.offsetId.Some? ==>
        r == ResultWithOffsetIdSpec(instantiate, uuid, input.value, profile.offsetId.value, profile.page, profile.pageSize)
      ensures input.Some? && profile.offsetId.None? ==>
        r == ResultWithoutOffsetIdSpec(instantiate, input.value, profile.page, profile.pageSize)
    {
      if input.Some? {
        if profile.offsetId.Some? {
          r := ResultWithOffsetId(input.value, profile.offsetId.value);
        } else {
          r := ResultWithoutOffsetId(input.value);
        }
        return;
      }
      return Ok(EmptyResult());
    }
  }

  /** If index `i` holds the first match of a prefix, it is the first match. */
  lemma {:induction false} FindUuidFirst<T>(uuid: T -> string, xs: seq<T>, id: string, i: nat)
    requires i < |xs| && uuid(xs[i]) == id
    requires forall k :: 0 <= k < i ==> uuid(xs[k]) != id
    ensures FindUuid(uuid, xs, id) == Some(i)
    decreases i
  {
    if i > 0 {
      FindUuidFirst(uuid, xs[1..], id, i - 1);
    }
  }

  // ----- 32-bit arithmetic of the negative-page path -----

  /** `resultWithoutOffsetId` with Java's 32-bit `int` arithmetic on the
      negative-page path, as written. */
  function ResultWithoutOffsetIdInt32<S, T>(instantiate: S -> Option<T>, raw: seq<S>, page: int, pageSize: int)
    : Outcome<Result<T>, FactoryError>
  {
    if page < 0 then
      var size := |raw|;
      var fromIndex := Max(0, Text.Wrap32(size + Text.Wrap32(page * pageSize)));
      var toIndex := Min(size, Text.Wrap32(fromIndex + pageSize));
      if 0 <= fromIndex <= toIndex <= size then Ok(Result(InstantiateEach(instantiate, raw[fromIndex..toIndex]), size))
      else Err(SubListOutOfRange(fromIndex, toIndex))
    else
      Ok(PageResult(instantiate, raw, PageStart(page, pageSize), pageSize))
  }

  /** With the default page size, page -2 over three records overflows:
      `-2 * Integer.MAX_VALUE` wraps to 2, so `subList(5, -2147483644)` is
      requested and fails, where the unbounded computation returns all
      three records. */
  lemma NegativePageOverflow<S, T>(instantiate: S -> Option<T>, a: S, b: S, c: S)
    ensures ResultWithoutOffsetIdInt32(instantiate, [a, b, c], -2, DEFAULT_PAGE_SIZE)
         == Err(SubListOutOfRange(5, -2147483644))
    ensures ResultWithoutOffsetIdSpec(instantiate, [a, b, c], -2, DEFAULT_PAGE_SIZE)
         == Ok(Result([instantiate(a), instantiate(b), instantiate(c)], 3))
  {
    assert Text.Wrap32(-2 * DEFAULT_PAGE_SIZE) == 2;
    assert Text.Wrap32(5 + DEFAULT_PAGE_SIZE) == -2147483644;
    assert [a, b, c][0..3] == [a, b, c];
    var r := InstantiateEach(instantiate, [a, b, c]);
    assert r == [r[0], r[1], r[2]];
  }

  /** Without paging, any negative page returns every record (nulls kept). */
  lemma UnpagedNegativePageIsAll<S, T>(instantiate: S -> Option<T>, raw: seq<S>, page: int)
    requires page < 0 && |raw| <= INTEGER_MAX_VALUE
    ensures ResultWithoutOffsetIdSpec(instantiate, raw, page, DEFAULT_PAGE_SIZE)
         == Ok(Result(InstantiateEach(instantiate, raw), |raw|))
  {
    assert page * DEFAULT_PAGE_SIZE <= -DEFAULT_PAGE_SIZE;
    assert raw[0..|raw|] == raw;
  }

  // ----- scenarios -----

  /** Every record visible: `Visible` is the identity. */
  lemma {:induction false} VisibleAll<T>(instantiate: T -> Option<T>, raw: seq<T>)
    requires forall x :: instantiate(x) == Some(x)
    ensures Visible(instantiate, raw) == raw
    decreases |raw|
  {
    if raw != [] {
      VisibleAll(instantiate, raw[..|raw| - 1]);
      assert raw[..|raw| - 1] + [raw[|raw| - 1]] == raw;
    }
  }

  /** Seven visible entities, page 2 of size 3: entities 4..6, count 7. */
  lemma SecondPageOfThree(instantiate: string -> Option<string>)
    requires forall x :: instantiate(x) == Some(x)
    ensures ResultWithoutOffsetIdSpec(instantiate, ["A", "B", "C", "D", "E", "F", "G"], 2, 3)
         == Ok(Result([Some("D"), Some("E"), Some("F")], 7))
  {
    var raw := ["A", "B", "C", "D", "E", "F", "G"];
    VisibleAll(instantiate, raw);
    WindowIsSlice(raw, 3, 3);
    assert raw[3..6] == ["D", "E", "F"];
    var p := Present(raw[3..6]);
    assert p == [p[0], p[1], p[2]];
  }

  /** Anchored at "C" with page 1 and page size 2, the page starts at the
      offsetId entity itself: ["C", "D"], counted against the 7 records. */
  lemma OffsetIdPageStartsAtAnchor(instantiate: string -> Option<string>, uuid: string -> string)
    requires forall x :: instantiate(x) == Some(x)
    requires forall x :: uuid(x) == x
    ensures ResultWithOffsetIdSpec(instantiate, uuid,
                                   ["A", "B", "C", "D", "E", "F", "G"], "C", 1, 2)
         == Ok(Result([Some("C"), Some("D")], 7))
  {
    var raw := ["A", "B", "C", "D", "E", "F", "G"];
    VisibleAll(instantiate, raw);
    FindUuidFirst(uuid, raw, "C", 2);
    WindowIsSlice(raw, 2, 2);
    assert raw[2..4] == ["C", "D"];
    var p := Present(raw[2..4]);
    assert p == [p[0], p[1]];
  }

  /** Anchored at "D" with page -1 and page size 2: the two entities before it. */
  lemma OffsetIdPreviousPage(instantiate: string -> Option<string>, uuid: string -> string)
    requires forall x :: instantiate(x) == Some(x)
    requires forall x :: uuid(x) == x
    ensures ResultWithOffsetIdSpec(instantiate, uuid,
                                   ["A", "B", "C", "D", "E", "F", "G"], "D", -1, 2)
         == Ok(Result([Some("B"), Some("C")], 7))
  {
    var raw := ["A", "B", "C", "D", "E", "F", "G"];
    VisibleAll(instantiate, raw);
    FindUuidFirst(uuid, raw, "D", 3);
    WindowIsSlice(raw, 1, 2);
    assert raw[1..3] == ["B", "C"];
    var p := Present(raw[1..3]);
    assert p == [p[0], p[1]];
  }
}

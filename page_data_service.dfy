/** PageDataService.cs: a paged cache in front of a data server. It keeps the number of
    items the server holds (or the INVALID_CACHE sentinel) and one slot per item, filled
    page by page as the server answers range requests. */
module PageDataServices {
  import opened Wrappers

  /** int.MinValue: the count before a successful refresh and after an invalidation. */
  const INVALID_CACHE: int := -0x8000_0000

  /** A RequestPageDataResult: whether the slot holds server data, the absolute index it
      was fetched for, and the item (None for the default null). */
  datatype Slot<T> = Slot(isValid: bool, index: int, dataItem: Option<T>)
  {
    /** The one-based position shown to the user. */
    function DisplayIndex(): int {
      index + 1
    }
  }

  /** `new RequestPageDataResult()`: not valid, index 0, no item. */
  function EmptySlot<T>(): Slot<T> {
    Slot(false, 0, None)
  }

  /** The slots GenerateEmptyCacheEntries makes for `n` items. */
  function EmptySlots<T>(n: nat): (slots: seq<Slot<T>>)
    ensures |slots| == n && forall i :: 0 <= i < n ==> slots[i] == EmptySlot()
  {
    seq(n, _ => EmptySlot())
  }

  /** The slot UpdateCacheEntries writes for the item fetched at absolute index `k`. */
  function Fetched<T>(k: int, item: T): Slot<T> {
    Slot(true, k, Some(item))
  }

  /** How a server call ended, as the awaiting code sees it: the task's result, the
      TimeoutException of TimeoutAfter, an OperationCanceledException, or any other
      exception the call throws. */
  datatype Response<R> = Ok(value: R) | Timeout | Cancelled | Fault

  /** The exceptions the service throws. */
  datatype ServiceError =
    | DataUnavailable    // DataException: the count has not been requested
    | InvalidData        // InvalidDataException: a non-positive count or an empty page
    | TimedOut           // TimeoutException
    | OperationCanceled  // OperationCanceledException
    | Faulted            // any other exception the server call ends with, as `.Result` rethrows it
    | OutOfRange         // ArgumentOutOfRangeException: more items than the page holds

  /** The exception a call that did not succeed rethrows. */
  function ErrorOf<R>(response: Response<R>): (e: ServiceError)
    ensures e == InvalidData <==> response.Ok?
    ensures e != DataUnavailable && e != OutOfRange
  {
    match response
    case Ok(_) => InvalidData
    case Timeout => TimedOut
    case Cancelled => OperationCanceled
    case Fault => Faulted
  }

  /** Every slot holds server data. */
  predicate AllValid<T>(slots: seq<Slot<T>>) {
    forall i :: 0 <= i < |slots| ==> slots[i].isValid
  }

  /** The cache after UpdateCacheEntries wrote `items` from absolute index `start`, one
      item after the other. */
  function Merged<T>(cache: seq<Slot<T>>, start: nat, items: seq<T>): (r: seq<Slot<T>>)
    requires start + |items| <= |cache|
    ensures |r| == |cache|
  {
    if items == [] then cache
    else
      var n := |items| - 1;
      Merged(cache, start, items[..n])[start + n := Fetched(start + n, items[n])]
  }

  /** After the write, slot `start + i` holds item `i` and every other slot is as it
      was. */
  lemma {:induction false} MergedAt<T>(cache: seq<Slot<T>>, start: nat, items: seq<T>)
    requires start + |items| <= |cache|
    ensures forall k :: 0 <= k < |cache| ==>
              Merged(cache, start, items)[k] ==
                if start <= k < start + |items| then Fetched(k, items[k - start]) else cache[k]
  {
    if items != [] {
      var n := |items| - 1;
      MergedAt(cache, start, items[..n]);
    }
  }

  /** The Debug.Assert conditions of DevelopmentDataAccessValidation: the range is
      non-negative and ends within the count. On a segment of that many slots these are
      also exactly the ranges ArraySegment.Slice accepts. */
  predicate AccessInRange(dataAvailableCount: int, start: int, count: int) {
    0 <= start <= dataAvailableCount && 0 <= count && start + count <= dataAvailableCount
  }

  /** GenerateEmptyCacheEntries: a new array of `entriesCount` default slots. */
  method GenerateEmptyCacheEntries<T>(entriesCount: nat) returns (a: array<Slot<T>>)
    ensures fresh(a) && a[..] == EmptySlots(entriesCount)
  {
    a := new Slot<T>[entriesCount];
    for i := 0 to entriesCount
      invariant forall j :: 0 <= j < i ==> a[j] == EmptySlot()
    {
      a[i] := EmptySlot();
    }
  }

  /** IsCachedDataValid over the segment [start, start + count) of `a`: stops at the
      first slot without server data. */
  method IsCachedDataValid<T>(a: array<Slot<T>>, start: nat, count: nat) returns (valid: bool)
    requires start + count <= a.Length
    ensures valid <==> AllValid(a[start..start + count])
  {
    var isInvalid := false;
    var i := 0;
    while i < count
      invariant 0 <= i <= count
      invariant !isInvalid
      invariant forall j :: start <= j < start + i ==> a[j].isValid
    {
      if a[start + i].isValid {
        i := i + 1;
        continue;
      }
      isInvalid := true;
      break;
    }
    valid := !isInvalid;
    if !valid {
      assert !a[start..start + count][i].isValid;
    }
  }

  /** UpdateCacheEntries on the segment [start, start + count) of `a`: item `i` goes to
      slot `start + i`. The segment's indexer throws once `i` reaches `count`, after the
      slots before it were written. */
  method UpdateCacheEntries<T>(a: array<Slot<T>>, start: nat, count: nat, items: seq<T>)
    returns (r: Result<(), ServiceError>)
    requires start + count <= a.Length
    modifies a
    ensures |items| <= count ==> r == Success(()) && a[..] == Merged(old(a[..]), start, items)
    ensures |items| > count ==> r == Failure(OutOfRange) && a[..] == Merged(old(a[..]), start, items[..count])
  {
    var i := 0;
    while i < |items|
      invariant 0 <= i <= |items| && i <= count
      invariant a[..] == Merged(old(a[..]), start, items[..i])
    {
      if i >= count {
        return Failure(OutOfRange);
      }
      assert items[..i + 1][..i] == items[..i];
      a[start + i] := Fetched(start + i, items[i]);
      i := i + 1;
    }
    assert items[..i] == items;
    r := Success(());
  }

  class PageDataService<S, T> {
    /** The data server the service asks. */
    var dataServer: S
    var dataAvailableCount: int
    /** The backing array of `_cachedData`: one slot per item the server holds. */
    var cache: array<Slot<T>>

    /** Either nothing is known (the sentinel and no slots) or the count is positive
        and there is one slot per item; a slot that holds server data was fetched for
        its own position. */
    ghost predicate Valid()
      reads this, cache
    {
      && (|| (dataAvailableCount == INVALID_CACHE && cache.Length == 0)
          || (dataAvailableCount > 0 && cache.Length == dataAvailableCount))
      && IndexedAtOwnPosition(cache[..])
    }

    /** IsDataAvailableCountValid. */
    predicate IsDataAvailableCountValid()
      reads this
    {
      dataAvailableCount > 0
    }

    /** The constructor: ChangeDataProvider on a new service. */
    constructor (dataServer: S)
      ensures Valid() && this.dataServer == dataServer
      ensures dataAvailableCount == INVALID_CACHE && cache.Length == 0
    {
      this.dataServer := dataServer;
      dataAvailableCount := INVALID_CACHE;
      cache := new Slot<T>[0];
    }

    /** ChangeDataProvider: switch servers and forget everything the old one said. */
    method ChangeDataProvider(dataServer: S)
      modifies this`dataServer, this`dataAvailableCount, this`cache
      ensures Valid() && this.dataServer == dataServer
      ensures dataAvailableCount == INVALID_CACHE && cache.Length == 0
    {
      this.dataServer := dataServer;
      InvalidateCache();
    }

    /** InvalidateCache: the sentinel count and no slots, whatever the state was, so a
        second call changes nothing. */
    method InvalidateCache()
      modifies this`dataAvailableCount, this`cache
      ensures Valid() && !IsDataAvailableCountValid()
      ensures dataAvailableCount == INVALID_CACHE && cache.Length == 0
    {
      dataAvailableCount := INVALID_CACHE;
      cache := new Slot<T>[0];
    }

    /** RequestDataAvailableCount, given how the server's count request ended. A
        positive count replaces the cache by that many empty slots, even when the
        count did not change; anything else invalidates the cache and throws. */
    method RequestDataAvailableCount(response: Response<int>) returns (r: Result<int, ServiceError>)
      modifies this`dataAvailableCount, this`cache
      ensures Valid()
      ensures r.Success? <==> response.Ok? && response.value > 0
      ensures r.Success? ==>
                && r.value == response.value == dataAvailableCount
                && IsDataAvailableCountValid()
                && fresh(cache) && cache[..] == EmptySlots(r.value)
      ensures r.Failure? ==>
                && r.error == ErrorOf(response)
                && dataAvailableCount == INVALID_CACHE && cache.Length == 0
    {
      if response.Ok? && response.value > 0 {
        dataAvailableCount := response.value;
        cache := GenerateEmptyCacheEntries(response.value);
        return Success(dataAvailableCount);
      }
      InvalidateCache();
      r := Failure(ErrorOf(response));
    }

    /** TryRequestPageData(start, count), given how the server's range request ended.
        Without a count it throws before asking. A non-empty answer is written into the
        slots from `start` and the page's `count` slots are returned as a copy; a range
        the cache cannot slice, an empty answer or a failed call throws and leaves every
        slot as it was. */
    method TryRequestPageData(start: int, count: int, response: Response<seq<T>>)
      returns (r: Result<seq<Slot<T>>, ServiceError>)
      requires Valid()
      modifies cache
      ensures Valid()
      ensures !IsDataAvailableCountValid() ==> r == Failure(DataUnavailable) && cache[..] == old(cache[..])
      ensures IsDataAvailableCountValid() && !(response.Ok? && |response.value| > 0) ==>
                r == Failure(ErrorOf(response)) && cache[..] == old(cache[..])
      ensures IsDataAvailableCountValid() && response.Ok? && |response.value| > 0 &&
              !AccessInRange(cache.Length, start, count) ==>
                r == Failure(OutOfRange) && cache[..] == old(cache[..])
      ensures IsDataAvailableCountValid() && AccessInRange(cache.Length, start, count) &&
              response.Ok? && 0 < |response.value| <= count ==>
                && cache[..] == Merged(old(cache[..]), start, response.value)
                && r == Success(cache[start..start + count])
      ensures IsDataAvailableCountValid() && AccessInRange(cache.Length, start, count) &&
              response.Ok? && |response.value| > count ==>
                && cache[..] == Merged(old(cache[..]), start, response.value[..count])
                && r == Failure(OutOfRange)
    {
      if !IsDataAvailableCountValid() {
        return Failure(DataUnavailable);
      }
      if response.Ok? && |response.value| > 0 {
        if !AccessInRange(cache.Length, start, count) {
          return Failure(OutOfRange);
        }
        var updated := UpdateCacheEntries(cache, start, count, response.value);
        if updated.Success? {
          MergedIndexed(old(cache[..]), start, response.value);
        } else {
          MergedIndexed(old(cache[..]), start, response.value[..count]);
        }
        if updated.Failure? {
          return Failure(updated.error);
        }
        r := Success(cache[start..start + count]);
      } else {
        r := Failure(ErrorOf(response));
      }
    }

    /** TryGetPageData(start, count): a hit, with a copy of the page's slots, exactly
        when every slot of the page holds server data; otherwise a miss with nothing.
        A range the cache cannot slice is a miss as well (the slice error is caught and
        logged). Without a count it throws. */
    method TryGetPageData(start: int, count: int) returns (r: Result<(bool, seq<Slot<T>>), ServiceError>)
      requires Valid()
      ensures r.Failure? <==> !IsDataAvailableCountValid()
      ensures r.Failure? ==> r.error == DataUnavailable
      ensures r.Success? && !AccessInRange(cache.Length, start, count) ==> r.value == (false, [])
      ensures r.Success? && AccessInRange(cache.Length, start, count) ==>
                && (r.value.0 <==> AllValid(cache[start..start + count]))
                && r.value.1 == if r.value.0 then cache[start..start + count] else []
    {
      if !IsDataAvailableCountValid() {
        return Failure(DataUnavailable);
      }
      if !AccessInRange(cache.Length, start, count) {
        return Success((false, []));
      }
      var valid := IsCachedDataValid(cache, start, count);
      if valid {
        r := Success((true, cache[start..start + count]));
      } else {
        r := Success((false, []));
      }
    }
  }

  /** Every slot that holds server data carries its own position as its index. */
  ghost predicate IndexedAtOwnPosition<T>(slots: seq<Slot<T>>) {
    forall i :: 0 <= i < |slots| && slots[i].isValid ==> slots[i].index == i
  }

  /** A fresh cache has no slot with server data, and a fetch writes each item with its
      own position, so both keep every valid slot at its own index. */
  lemma MergedIndexed<T>(cache: seq<Slot<T>>, start: nat, items: seq<T>)
    requires start + |items| <= |cache| && IndexedAtOwnPosition(cache)
    ensures IndexedAtOwnPosition(Merged(cache, start, items))
    ensures IndexedAtOwnPosition(EmptySlots<T>(|cache|))
  {
    MergedAt(cache, start, items);
  }

  /** The round trip: after a fetch of `items` from `start`, the page [start, start +
      |items|) is all valid and slot `start + i` holds item `i` with index `start + i`,
      shown as `start + i + 1`. */
  lemma FetchedRangeHits<T>(cache: seq<Slot<T>>, start: nat, items: seq<T>)
    requires start + |items| <= |cache|
    ensures var page := Merged(cache, start, items)[start..start + |items|];
            && AllValid(page)
            && forall i :: 0 <= i < |items| ==>
                 page[i] == Fetched(start + i, items[i]) && page[i].DisplayIndex() == start + i + 1
  {
    MergedAt(cache, start, items);
  }

  /** A slot that holds server data keeps holding some until the cache is invalidated. */
  lemma MergedKeepsValid<T>(cache: seq<Slot<T>>, start: nat, items: seq<T>)
    requires start + |items| <= |cache|
    ensures forall k :: 0 <= k < |cache| && cache[k].isValid ==> Merged(cache, start, items)[k].isValid
  {
    MergedAt(cache, start, items);
  }

  /** Fetching the same page twice leaves the cache as fetching it once. */
  lemma MergedIdempotent<T>(cache: seq<Slot<T>>, start: nat, items: seq<T>)
    requires start + |items| <= |cache|
    ensures Merged(Merged(cache, start, items), start, items) == Merged(cache, start, items)
  {
    var once := Merged(cache, start, items);
    var twice := Merged(once, start, items);
    MergedAt(cache, start, items);
    MergedAt(once, start, items);
    assert forall k :: 0 <= k < |twice| ==> twice[k] == once[k];
  }

  /** Fetches of disjoint pages commute: the order the answers arrive in does not matter. */
  lemma MergedDisjointCommute<T>(cache: seq<Slot<T>>, s1: nat, items1: seq<T>, s2: nat, items2: seq<T>)
    requires s1 + |items1| <= |cache| && s2 + |items2| <= |cache|
    requires s1 + |items1| <= s2 || s2 + |items2| <= s1
    ensures Merged(Merged(cache, s1, items1), s2, items2) == Merged(Merged(cache, s2, items2), s1, items1)
  {
    var a := Merged(Merged(cache, s1, items1), s2, items2);
    var b := Merged(Merged(cache, s2, items2), s1, items1);
    MergedAt(cache, s1, items1);
    MergedAt(cache, s2, items2);
    MergedAt(Merged(cache, s1, items1), s2, items2);
    MergedAt(Merged(cache, s2, items2), s1, items1);
    assert forall k :: 0 <= k < |a| ==> a[k] == b[k];
  }

  /** A freshly refreshed cache misses on every non-empty page. */
  lemma EmptySlotsMiss<T>(n: nat, start: nat, count: nat)
    requires start + count <= n && count > 0
    ensures !AllValid(EmptySlots<T>(n)[start..start + count])
  {
    assert EmptySlots<T>(n)[start..start + count][0] == EmptySlot();
  }
}

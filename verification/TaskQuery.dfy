/** The windows of the ListTasks query. */
module TaskQuery {
  import opened Bytes
  import opened TaskCodec
  import opened TaskRegistry

  const TWO_63: int := 0x8000_0000_0000_0000

  datatype PageRequest = PageRequest(offset: uint64, limit: uint64)

  datatype TaskPage = TaskPage(tasks: seq<Task>, total: nat)

  /** Go's conversion of a uint64 to a 64-bit int. */
  function ToInt(v: uint64): int {
    if v < TWO_63 then v else v - TWO_64
  }

  /** The value a 64-bit int holds after an addition that overflowed. */
  function Wrap(x: int): int {
    (x + TWO_63) % TWO_64 - TWO_63
  }

  function Min(a: int, b: int): int {
    if a <= b then a else b
  }

  /** The window asked for: from `offset` on, at most `limit` entries, all when `limit` is 0. */
  function Window<T>(all: seq<T>, offset: nat, limit: nat): seq<T> {
    var start := Min(offset, |all|);
    if limit == 0 then all[start..] else all[start..Min(start + limit, |all|)]
  }

  /** A conversion keeps the value modulo 2^64 and lands in the signed range, and so does
      the result of an addition. */
  lemma IntNumbers(v: uint64, x: int)
    ensures -TWO_63 <= ToInt(v) < TWO_63 && exists q :: ToInt(v) == v + q * TWO_64
    ensures -TWO_63 <= Wrap(x) < TWO_63 && exists q :: Wrap(x) == x + q * TWO_64
  {
    assert ToInt(v) == v + (if v < TWO_63 then 0 else -1) * TWO_64;
    var q := -((x + TWO_63) / TWO_64);
    assert Wrap(x) == x + q * TWO_64;
  }

  /** A window by positions. */
  lemma WindowIs<T>(all: seq<T>, offset: nat, limit: nat)
    ensures var left := if offset < |all| then |all| - offset else 0;
      |Window(all, offset, limit)| == if limit == 0 || limit > left then left else limit
    ensures forall i :: 0 <= i < |Window(all, offset, limit)| ==> Window(all, offset, limit)[i] == all[offset + i]
  {
  }

  /** When the 64-bit bounds stay valid. */
  predicate InRange(len: nat, p: PageRequest) {
    p.offset < TWO_63 && (p.limit == 0 || Min(p.offset, len) + p.limit < TWO_63)
  }

  /** Requests on either side of it: the largest offset with a sign bit clear is served and
      the next one panics; so does the largest such limit from offset 1 of a non-empty list. */
  lemma TopBitPanics(len: nat)
    requires len > 0
    ensures InRange(len, PageRequest(TWO_63 - 1, 0)) && !InRange(len, PageRequest(TWO_63, 0))
    ensures InRange(len, PageRequest(0, TWO_63 - 1)) && !InRange(len, PageRequest(1, TWO_63 - 1))
  {
  }

  lemma WrapSum(start: nat, limit: uint64)
    requires start < TWO_63
    ensures Wrap(start + ToInt(limit)) == if start + limit < TWO_63 then start + limit else start + limit - TWO_64
  {
  }

  lemma SliceIsWindow<T>(all: seq<T>, offset: nat, limit: nat, start: int, end: int)
    requires start == Min(offset, |all|) && end == if limit == 0 then |all| else Min(start + limit, |all|)
    ensures 0 <= start <= end <= |all| && all[start..end] == Window(all, offset, limit)
  {
  }

  /** The query's start and end, computed step by step, then the slice; None is its
      slice-bounds panic. */
  method Paginate(all: seq<Task>, pagination: Option<PageRequest>) returns (r: Option<TaskPage>)
    requires |all| < TWO_63
    ensures
      match pagination
      case None => r == Some(TaskPage(all, |all|))
      case Some(p) => r == if InRange(|all|, p) then Some(TaskPage(Window(all, p.offset, p.limit), |all|)) else None
  {
    hide Wrap, Window;
    var start, end := 0, |all|;
    if pagination.Some? && pagination.value.offset > 0 {
      start := ToInt(pagination.value.offset);
      if start > |all| { start := |all|; }
    }
    if pagination.Some? && pagination.value.limit > 0 {
      if start >= 0 { WrapSum(start, pagination.value.limit); }
      end := Wrap(start + ToInt(pagination.value.limit));
      if end > |all| { end := |all|; }
    }
    if !(0 <= start <= end <= |all|) { return None; }
    r := Some(TaskPage(all[start..end], |all|));
    if pagination.Some? {
      SliceIsWindow(all, pagination.value.offset, pagination.value.limit, start, end);
    } else {
      assert all[0..|all|] == all;
    }
  }

  function Tiles<T>(all: seq<T>, offset: nat, limit: nat): seq<T>
    requires limit >= 1
    decreases |all| - offset
  {
    if offset >= |all| then [] else Window(all, offset, limit) + Tiles(all, offset + limit, limit)
  }

  lemma WindowThenRest<T>(all: seq<T>, offset: nat, limit: nat)
    requires limit >= 1 && offset <= |all|
    ensures var rest := Min(offset + limit, |all|); Window(all, offset, limit) + all[rest..] == all[offset..]
  {
  }

  lemma {:induction false} TilesFrom<T>(all: seq<T>, offset: nat, limit: nat)
    requires limit >= 1
    ensures Tiles(all, offset, limit) == all[Min(offset, |all|)..]
    decreases |all| - offset
  {
    hide Window;
    if offset < |all| {
      TilesFrom(all, offset + limit, limit);
      WindowThenRest(all, offset, limit);
    }
  }

  /** Consecutive windows of any limit of at least 1 concatenate to the full list. */
  lemma WindowsTile<T>(all: seq<T>, limit: nat)
    requires limit >= 1
    ensures Tiles(all, 0, limit) == all
  {
    TilesFrom(all, 0, limit);
  }

  /** While the counter exceeds every id, a window that was full is unchanged by a
      CreateTask, for whatever listing is served before and after. */
  lemma FullWindowsStable(r: Registry, c: MsgCreateTask, before: seq<Task>, after: seq<Task>, offset: nat, limit: nat)
    requires forall id :: id in r.tasks ==> id < r.next
    requires Lists(before, r.tasks) && Lists(after, Step(r, Create(c)).0.tasks)
    requires limit >= 1 && offset + limit <= |before|
    ensures Window(after, offset, limit) == Window(before, offset, limit)
  {
    CreateAppends(r, c, before);
    ListsUnique(after, before + [NewTask(r.next, c)], Step(r, Create(c)).0.tasks);
  }
}

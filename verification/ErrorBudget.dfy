/**
  `lists/parsers/filtererrors.go` and `ForEach` of `lists/parsers/parser.go`: consuming a series of
  items while tolerating a bounded number of bad ones.
 */
module ErrorBudget {
  import opened Wrappers
  import opened Contexts

  /** An item of the series, or the (resumable) error of parsing it. */
  datatype Item<T> = Good(value: T) | Bad(error: nat)

  /** How the series ends; both are non-resumable errors of the parser. */
  datatype End = Eof | Broken

  datatype Step<T> = Value(value: T) | Resumable(error: nat) | Final(end: End)

  datatype Failure = TooManyErrors | SeriesBroken | CallbackFailed | Cancelled

  const NO_ERROR_LIMIT := -1

  function Goods<T>(items: seq<Item<T>>): seq<T> {
    if items == [] then []
    else Goods(items[..|items| - 1]) + if items[|items| - 1].Good? then [items[|items| - 1].value] else []
  }

  function Bads<T>(items: seq<Item<T>>): seq<nat> {
    if items == [] then []
    else Bads(items[..|items| - 1]) + if items[|items| - 1].Bad? then [items[|items| - 1].error] else []
  }

  /** Every item is a good or a bad one, and each good one keeps its place among the good ones. */
  lemma {:induction false} GoodsInOrder<T>(items: seq<Item<T>>, k: nat)
    requires k < |items|
    ensures |Goods(items)| + |Bads(items)| == |items|
    ensures items[k].Good? ==>
      |Goods(items[..k])| < |Goods(items)| && Goods(items)[|Goods(items[..k])|] == items[k].value
    ensures items[k].Bad? ==>
      |Bads(items[..k])| < |Bads(items)| && Bads(items)[|Bads(items[..k])|] == items[k].error
  {
    var n := |items| - 1;
    var init, last := items[..n], items[n];
    assert Goods(items) == Goods(init) + if last.Good? then [last.value] else [];
    assert Bads(items) == Bads(init) + if last.Bad? then [last.error] else [];
    assert n == 0 ==> Goods(init) == [] && Bads(init) == [];
    hide Goods, Bads;
    if k < n {
      GoodsInOrder(init, k);
      assert init[..k] == items[..k];
    } else if n > 0 {
      GoodsInOrder(init, 0);
    }
  }

  /** The number of bad items that a limit tolerates is used up at `items[k]`. */
  predicate Exhausts<T>(limit: int, items: seq<Item<T>>, k: nat) {
    limit != NO_ERROR_LIMIT && k < |items| && items[k].Bad? && |Bads(items[..k])| >= limit
  }

  /** Consumption cannot go past `items[k]`: it is bad and over the limit, or the callback refuses it. */
  predicate Halts<T(!new)>(limit: int, refuses: T -> bool, items: seq<Item<T>>, k: nat) {
    Exhausts(limit, items, k) || (k < |items| && items[k].Good? && refuses(items[k].value))
  }

  /** Where consumption stops: at the first item that halts it, or after the last item. */
  predicate StopsAt<T(!new)>(limit: int, refuses: T -> bool, items: seq<Item<T>>, k: nat) {
    && k <= |items| && (k < |items| ==> Halts(limit, refuses, items, k))
    && forall j: nat :: j < k ==> !Halts(limit, refuses, items, j)
  }

  /** What has been looked at when consumption stops at `k`. */
  function UpTo<T>(items: seq<Item<T>>, k: nat): seq<Item<T>>
    requires k <= |items|
  {
    items[..if k < |items| then k + 1 else k]
  }

  /** With a limit n >= 0 and a callback that never fails, consumption stops exactly at the (n+1)-th bad item. */
  lemma StopsAfterLimit<T(!new)>(limit: nat, refuses: T -> bool, items: seq<Item<T>>, k: nat)
    requires StopsAt(limit, refuses, items, k) && forall v :: !refuses(v)
    ensures k < |items| <==> |Bads(items)| > limit
    ensures k < |items| ==> items[k].Bad? && |Bads(items[..k])| == limit
  {
    forall j: nat | j < k ensures !Exhausts(limit, items, j) { assert !Halts(limit, refuses, items, j); }
    BadsUpTo(limit, items, k);
    assert items[..|items|] == items;
    if k < |items| {
      BadsGrow(items, k + 1, |items|);
      assert items[..k + 1][..k] == items[..k];
    }
  }

  /** Without a limit, and with a callback that never fails, everything is consumed. */
  lemma NoLimitConsumesAll<T(!new)>(refuses: T -> bool, items: seq<Item<T>>, k: nat)
    requires StopsAt(-1, refuses, items, k) && forall v :: !refuses(v)
    ensures k == |items|
  {
  }

  lemma {:induction false} BadsUpTo<T>(limit: nat, items: seq<Item<T>>, k: nat)
    requires k <= |items| && forall j: nat :: j < k ==> !Exhausts(limit, items, j)
    ensures |Bads(items[..k])| <= limit
  {
    if k > 0 {
      BadsUpTo(limit, items, k - 1);
      assert items[..k][..k - 1] == items[..k - 1];
      assert !Exhausts(limit, items, k - 1);
    }
  }

  lemma {:induction false} BadsGrow<T>(items: seq<Item<T>>, a: nat, b: nat)
    requires a <= b <= |items|
    ensures |Bads(items[..a])| <= |Bads(items[..b])|
    decreases b
  {
    if a < b {
      BadsGrow(items, a, b - 1);
      assert items[..b][..b - 1] == items[..b - 1];
    }
  }

  /** The wrapped parser: yields its items, then its final error for ever. */
  class SeriesParser<T> {
    const items: seq<Item<T>>
    const end: End
    var pos: nat

    constructor (items: seq<Item<T>>, end: End)
      ensures this.items == items && this.end == end && pos == 0
    {
      this.items, this.end, pos := items, end, 0;
    }

    method Next() returns (r: Step<T>)
      modifies this
      ensures old(pos) < |items| ==> pos == old(pos) + 1
      ensures old(pos) < |items| ==> r == match items[old(pos)] case Good(v) => Value(v) case Bad(e) => Resumable(e)
      ensures old(pos) >= |items| ==> pos == old(pos) && r == Final(end)
    {
      if pos < |items| {
        r := match items[pos] case Good(v) => Value(v) case Bad(e) => Resumable(e);
        pos := pos + 1;
      } else {
        r := Final(end);
      }
    }
  }

  /** `AllowErrors`, with a callback registered by `OnErr` that records every error. */
  class ErrorFilter<T> {
    const inner: SeriesParser<T>
    const limit: int
    var count: nat
    var reported: seq<nat>

    ghost predicate Valid()
      reads this, inner
    {
      && inner.pos <= |inner.items|
      && (limit != NO_ERROR_LIMIT ==> count == |Bads(inner.items[..inner.pos])|)
      && reported == Bads(inner.items[..inner.pos])
    }

    constructor (inner: SeriesParser<T>, limit: int)
      requires inner.pos == 0
      ensures Valid() && this.inner == inner && this.limit == limit
    {
      this.inner, this.limit, count, reported := inner, limit, 0, [];
    }

    /** `Next`: skips bad items until a good one, the end, or the item that exhausts the limit. */
    method Next() returns (r: Result<T, Failure>, eof: bool)
      requires Valid()
      modifies this, inner
      ensures Valid() && inner.pos >= old(inner.pos)
      ensures var from, to := old(inner.pos), inner.pos;
        if r.Ok? then
          && !eof && to > from && inner.items[to - 1] == Good(r.value)
          && forall j: nat :: from <= j < to - 1 ==> inner.items[j].Bad? && !Exhausts(limit, inner.items, j)
        else if r.error.TooManyErrors? then
          && !eof && to > from && Exhausts(limit, inner.items, to - 1)
          && forall j: nat :: from <= j < to - 1 ==> inner.items[j].Bad? && !Exhausts(limit, inner.items, j)
        else
          && to == |inner.items| && eof == inner.end.Eof?
          && forall j: nat :: from <= j < to ==> inner.items[j].Bad? && !Exhausts(limit, inner.items, j)
    {
      while true
        invariant Valid() && old(inner.pos) <= inner.pos
        invariant forall j: nat :: old(inner.pos) <= j < inner.pos ==>
          inner.items[j].Bad? && !Exhausts(limit, inner.items, j)
        decreases |inner.items| - inner.pos
      {
        ghost var at := inner.pos;
        var step := inner.Next();
        if at < |inner.items| {
          assert inner.items[..at + 1][..at] == inner.items[..at];
        }
        match step {
          case Final(end) =>
            return Err(SeriesBroken), end.Eof?;
          case Resumable(e) =>
            reported := reported + [e];
            if limit != NO_ERROR_LIMIT {
              count := count + 1;
              if count > limit {
                return Err(TooManyErrors), false;
              }
            }
          case Value(v) =>
            return Ok(v), false;
        }
      }
    }
  }

  /**
    `ForEach`: hands every good item up to the stop to the callback, in order; succeeds exactly when
    the limit holds to the end, the callback takes everything and the series ends properly. A context
    that is done ends it early, at an item that would not have halted it.
   */
  method ForEach<T(!new)>(ctx: Context, p: ErrorFilter<T>, refuses: T -> bool)
    returns (called: seq<T>, failure: Option<Failure>, ghost stop: nat)
    requires p.Valid() && p.inner.pos == 0
    modifies ctx, p, p.inner
    ensures old(ctx.done) ==> ctx.done && failure == Some(Cancelled)
    ensures stop <= |p.inner.items| && forall j: nat :: j < stop ==> !Halts(p.limit, refuses, p.inner.items, j)
    ensures failure == Some(Cancelled) ==>
      ctx.done && called == Goods(p.inner.items[..stop]) && p.reported == Bads(p.inner.items[..stop])
    ensures failure != Some(Cancelled) ==>
      && StopsAt(p.limit, refuses, p.inner.items, stop)
      && called == Goods(UpTo(p.inner.items, stop)) && p.reported == Bads(UpTo(p.inner.items, stop))
      && failure == if stop < |p.inner.items| then
                      Some(if p.inner.items[stop].Bad? then TooManyErrors else CallbackFailed)
                    else if p.inner.end.Eof? then None else Some(SeriesBroken)
  {
    hide Goods, Bads;
    called := [];
    ghost var items := p.inner.items;
    NothingYet(items);
    while true
      invariant p.Valid() && called == Goods(items[..p.inner.pos])
      invariant forall j: nat :: j < p.inner.pos ==> !Halts(p.limit, refuses, items, j)
      invariant old(ctx.done) ==> ctx.done
      decreases |items| - p.inner.pos
    {
      var done := ctx.IsDone();
      if done {
        return called, Some(Cancelled), p.inner.pos;
      }
      ghost var from := p.inner.pos;
      var r, eof := p.Next();
      ghost var to := p.inner.pos;
      if r.Err? {
        GoodsSkip(items, from, to);
        if r.error.TooManyErrors? {
          return called, Some(TooManyErrors), to - 1;
        }
        return called, if eof then None else Some(SeriesBroken), to;
      }
      GoodsTo(items, from, to, r.value);
      called := called + [r.value];
      if refuses(r.value) {
        return called, Some(CallbackFailed), to - 1;
      }
    }
  }

  lemma NothingYet<T>(items: seq<Item<T>>)
    ensures Goods(items[..0]) == []
  {
  }

  lemma GoodsTo<T>(items: seq<Item<T>>, a: nat, b: nat, v: T)
    requires a < b <= |items| && items[b - 1] == Good(v) && forall j :: a <= j < b - 1 ==> items[j].Bad?
    ensures Goods(items[..b]) == Goods(items[..a]) + [v]
  {
    GoodsSkip(items, a, b - 1);
    assert items[..b][..b - 1] == items[..b - 1];
  }

  lemma {:induction false} GoodsSkip<T>(items: seq<Item<T>>, a: nat, b: nat)
    requires a <= b <= |items| && forall j :: a <= j < b ==> items[j].Bad?
    ensures Goods(items[..a]) == Goods(items[..b])
    decreases b
  {
    if a < b {
      GoodsSkip(items, a, b - 1);
      assert items[..b][..b - 1] == items[..b - 1];
    }
  }
}

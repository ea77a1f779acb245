/** Giving storage queues to streams (scm_seg_queues_map_to_streams of
    salsa/src/sto-ctlr/scm-seg-queues.c): the last queues, of the lowest quality, go to the first
    streams. */
module Streams {
  import opened Arith
  import opened Capacity

  type Props = set<nat>

  /** What queues `k` and higher hold in all. */
  function SizeFrom(sizes: seq<nat>, k: nat): nat
    requires k <= |sizes|
    decreases |sizes| - k
  {
    if k == |sizes| then 0 else sizes[k] + SizeFrom(sizes, k + 1)
  }

  function PropsFrom(props: seq<Props>, k: nat): Props
    requires k <= |props|
    decreases |props| - k
  {
    if k == |props| then {} else props[k] + PropsFrom(props, k + 1)
  }

  function PropsTo(props: seq<Props>, n: nat): Props
    requires n <= |props|
  {
    if n == 0 then {} else PropsTo(props, n - 1) + props[n - 1]
  }

  lemma {:induction false} PropsSame(s: seq<Props>, t: seq<Props>, n: nat)
    requires n <= |s| && n <= |t| && forall i :: 0 <= i < n ==> s[i] == t[i]
    ensures PropsTo(s, n) == PropsTo(t, n)
  {
    if n > 0 {
      PropsSame(s, t, n - 1);
    }
  }

  lemma {:induction false} SplitsAt(sizes: seq<nat>, props: seq<Props>, k: nat)
    requires k <= |sizes| == |props|
    ensures Prefix(sizes, k) + SizeFrom(sizes, k) == SizeFrom(sizes, 0)
    ensures PropsTo(props, k) + PropsFrom(props, k) == PropsFrom(props, 0)
  {
    if k > 0 {
      SplitsAt(sizes, props, k - 1);
    }
  }

  lemma LastOne(sizes: seq<nat>, props: seq<Props>)
    requires 0 < |sizes| == |props|
    ensures SizeFrom(sizes, |sizes| - 1) == sizes[|sizes| - 1] && PropsFrom(props, |sizes| - 1) == props[|sizes| - 1]
  {
    assert SizeFrom(sizes, |sizes|) == 0 && PropsFrom(props, |sizes|) == {};
  }

  /** Streams filled so far, with what the queues from `k` on hold. */
  ghost predicate Filled(ss: seq<nat>, sp: seq<Props>, sizes: seq<nat>, props: seq<Props>, k: nat)
    requires k <= |sizes| == |props|
  {
    |ss| == |sp| && Prefix(ss, |ss|) == SizeFrom(sizes, k) && PropsTo(sp, |sp|) == PropsFrom(props, k)
  }

  lemma Fills(ss: seq<nat>, sp: seq<Props>, sizes: seq<nat>, props: seq<Props>, k: nat)
    requires 0 < k <= |sizes| == |props| && Filled(ss, sp, sizes, props, k)
    ensures Filled(ss + [sizes[k - 1]], sp + [props[k - 1]], sizes, props, k - 1)
  {
    PrefixPush(ss, sizes[k - 1]);
    PropsSame(sp + [props[k - 1]], sp, |sp|);
  }

  /** Stream `j`, counted from the last, gets the queue of that number, counted from the first. */
  predicate OneOf(ss: seq<nat>, sp: seq<Props>, sizes: seq<nat>, props: seq<Props>, n: nat, j: nat)
    requires j < |ss| == |sp| && j < n <= j + |sizes| && |sizes| == |props|
  {
    ss[j] == sizes[n - 1 - j] && sp[j] == props[n - 1 - j]
  }

  /** Streams `lo` and on, of `n` in all, have one queue each. */
  ghost predicate OneTo(ss: seq<nat>, sp: seq<Props>, sizes: seq<nat>, props: seq<Props>, n: nat, lo: nat)
    requires |ss| == |sp| <= n <= lo + |sizes| && |sizes| == |props|
  {
    forall j {:trigger OneOf(ss, sp, sizes, props, n, j)} :: lo <= j < |ss| ==> OneOf(ss, sp, sizes, props, n, j)
  }

  lemma OneMore(ss: seq<nat>, sp: seq<Props>, sizes: seq<nat>, props: seq<Props>, n: nat, lo: nat, q: nat)
    requires |ss| == |sp| == n - q && 0 < q <= |sizes| == |props| && lo <= |ss| && n <= lo + |sizes|
    requires OneTo(ss, sp, sizes, props, n, lo)
    ensures OneTo(ss + [sizes[q - 1]], sp + [props[q - 1]], sizes, props, n, lo)
  {
    var ts, tp := ss + [sizes[q - 1]], sp + [props[q - 1]];
    forall j | lo <= j < |ts| ensures OneOf(ts, tp, sizes, props, n, j) {
      assert j < |ss| ==> OneOf(ss, sp, sizes, props, n, j);
    }
  }

  /** The remaining queues go to one stream each. */
  method OneEach(ss: seq<nat>, sp: seq<Props>, sizes: seq<nat>, props: seq<Props>, k: nat)
      returns (ss': seq<nat>, sp': seq<Props>)
    requires k <= |sizes| == |props| && Filled(ss, sp, sizes, props, k)
    ensures Filled(ss', sp', sizes, props, 0) && |ss'| == |ss| + k
    ensures OneTo(ss', sp', sizes, props, |ss'|, |ss|) && ss <= ss' && sp <= sp'
  {
    ss', sp' := ss, sp;
    var q := k;
    while q > 0
      invariant 0 <= q <= k && Filled(ss', sp', sizes, props, q) && |ss'| == |ss| + k - q
      invariant OneTo(ss', sp', sizes, props, |ss| + k, |ss|) && ss <= ss' && sp <= sp'
    {
      Fills(ss', sp', sizes, props, q);
      OneMore(ss', sp', sizes, props, |ss| + k, |ss|, q);
      ss', sp' := ss' + [sizes[q - 1]], sp' + [props[q - 1]];
      q := q - 1;
    }
  }

  /** Each of the first `r` streams has the size divided by `r + 1`, rounded down, and all of them and the
      next one have the property. */
  ghost predicate Shared(ss: seq<nat>, sp: seq<Props>, size: nat, prop: Props, r: nat)
    requires r < |ss| == |sp|
  {
    && (forall i :: 0 <= i < r ==> ss[i] * (r + 1) <= size < (ss[i] + 1) * (r + 1))
    && forall i :: 0 <= i <= r ==> sp[i] == prop
  }

  lemma PartBounds(size: nat, r: nat)
    ensures var part := size / (r + 1); 0 <= part * r <= part * (r + 1) <= size < (part + 1) * (r + 1) && 0 <= part
  {
    DivPositive(size, r + 1);
    Divided(size, r + 1);
    var part := size / (r + 1);
    assert part * (r + 1) == part * r + part && (part + 1) * (r + 1) == part * (r + 1) + (r + 1);
  }

  /** More streams than queues: the last queue is divided among the first streams, in equal parts
      and a rest. */
  method Divide(size: nat, prop: Props, r: nat) returns (ss: seq<nat>, sp: seq<Props>)
    ensures |ss| == |sp| == r + 1 && Prefix(ss, r + 1) == size && PropsTo(sp, r + 1) == prop
    ensures Shared(ss, sp, size, prop, r)
  {
    PartBounds(size, r);
    var part := size / (r + 1);
    ss, sp := [], [];
    for sid := 0 to r
      invariant |ss| == |sp| == sid && Prefix(ss, sid) == part * sid && (forall i :: 0 <= i < sid ==> ss[i] == part)
      invariant PropsTo(sp, sid) == (if sid == 0 then {} else prop) && forall i :: 0 <= i < sid ==> sp[i] == prop
    {
      PrefixPush(ss, part);
      PropsSame(sp + [prop], sp, sid);
      assert part * (sid + 1) == part * sid + part;
      ss, sp := ss + [part], sp + [prop];
    }
    PrefixPush(ss, size - part * r);
    PropsSame(sp + [prop], sp, r);
    ss, sp := ss + [size - part * r], sp + [prop];
  }

  /** More queues than streams: the first stream gets all the last queues from `k` on. */
  method Combine(sizes: seq<nat>, props: seq<Props>, k: nat) returns (size: nat, prop: Props)
    requires k <= |sizes| == |props|
    ensures size == SizeFrom(sizes, k) && prop == PropsFrom(props, k)
  {
    size, prop := 0, {};
    var x := |sizes|;
    while x > k
      invariant k <= x <= |sizes| && size == SizeFrom(sizes, x) && prop == PropsFrom(props, x)
    {
      x := x - 1;
      size, prop := size + sizes[x], prop + props[x];
    }
  }

  /** Whatever the numbers of queues and streams, the streams hold together exactly what the queues
      hold, and all their properties; the last streams get one queue each, the best last. Where the numbers
      differ, the first streams share the last queue, or the first one gets all the last queues. */
  method MapToStreams(sizes: seq<nat>, props: seq<Props>, streams: nat) returns (ss: seq<nat>, sp: seq<Props>)
    requires 0 < |sizes| == |props| && 0 < streams
    ensures |ss| == |sp| == streams
    ensures Prefix(ss, streams) == Prefix(sizes, |sizes|) && PropsTo(sp, streams) == PropsTo(props, |props|)
    ensures var lo := if |sizes| < streams then streams - |sizes| + 1 else if |sizes| == streams then 0 else 1;
            OneTo(ss, sp, sizes, props, streams, lo)
    ensures var n := |sizes|; n < streams ==> Shared(ss, sp, sizes[n - 1], props[n - 1], streams - n)
    ensures streams < |sizes| ==> ss[0] == SizeFrom(sizes, streams - 1) && sp[0] == PropsFrom(props, streams - 1)
  {
    var n := |sizes|;
    if n == streams {
      ss, sp := OneEach([], [], sizes, props, n);
    } else if n < streams {
      ss, sp := Divide(sizes[n - 1], props[n - 1], streams - n);
      LastOne(sizes, props);
      ss, sp := OneEach(ss, sp, sizes, props, n - 1);
    } else {
      var size, prop := Combine(sizes, props, streams - 1);
      PrefixPush([], size);
      assert PropsTo([prop], 1) == PropsTo([prop], 0) + prop;
      assert [] + [size] == [size];
      ss, sp := OneEach([size], [prop], sizes, props, streams - 1);
    }
    FilledAll(ss, sp, sizes, props);
  }

  lemma FilledAll(ss: seq<nat>, sp: seq<Props>, sizes: seq<nat>, props: seq<Props>)
    requires |sizes| == |props| && Filled(ss, sp, sizes, props, 0)
    ensures Prefix(ss, |ss|) == Prefix(sizes, |sizes|) && PropsTo(sp, |sp|) == PropsTo(props, |props|)
  {
    SplitsAt(sizes, props, |sizes|);
  }
}

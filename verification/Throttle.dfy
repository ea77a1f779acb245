/** Write throttling (salsa/src/sto-ctlr/scm-throttler.c): user writes and the collector's writes
    draw on budgets that are refilled together, whenever the collector has used up its own. */
module Throttle {
  import opened Arith

  const USER_AVAIL: nat := 1000

  /** Pages written in all per thousand pages of user writes, when `relocs` of a segment's grains
      had to be relocated. */
  function WriteAmp(segSize: nat, relocs: nat): int
    requires relocs < segSize
  {
    segSize * USER_AVAIL / (segSize - relocs)
  }

  lemma WriteAmpBound(segSize: nat, relocs: nat)
    requires relocs < segSize
    ensures WriteAmp(segSize, relocs) - USER_AVAIL <= USER_AVAIL * (segSize - 1)
  {
    var d := segSize - relocs;
    Divided(segSize * USER_AVAIL, d);
    DivPositive(segSize * USER_AVAIL, d);
    var w := WriteAmp(segSize, relocs);
    MulMonotone(1, d, w);
    assert d * w == w * d;
  }

  /** How many pages the collector may write for a thousand of the users, if `relocs` of its grains
      take as many pages as are left for the users: the quotient, rounded down. */
  lemma WriteAmpIs(segSize: nat, relocs: nat)
    requires 0 < relocs < segSize
    ensures var d, g := segSize - relocs, WriteAmp(segSize, relocs) - 1000;
            0 <= g && g * d <= 1000 * relocs < (g + 1) * d
  {
    var d, w := segSize - relocs, WriteAmp(segSize, relocs);
    Divided(segSize * 1000, d);
    assert segSize * 1000 == 1000 * d + 1000 * relocs;
    assert (w - 1000) * d == w * d - 1000 * d && (w - 1000 + 1) * d == (w - 1000) * d + d;
    assert (w + 1) * d == w * d + d;
    if w < 1000 {
      MulMonotone(w + 1, 1000, d);
    }
  }

  lemma QuotientIsPositive(g: int, d: int, n: int)
    requires 0 < d && g * d <= n < (g + 1) * d
    ensures 0 < g <==> d <= n
  {
    if 0 < g { MulMonotone(1, g, d); } else { MulMonotone(g + 1, 1, d); }
  }

  class Throttler {
    const segSize: nat
    var u: nat
    var g: nat
    var ga: nat
    var ua: nat
    // what happened so far: slots users took, pages the collector wrote, pages it was granted,
    // refills, and starts of the collector
    ghost var admitted: nat
    ghost var written: nat
    ghost var granted: nat
    ghost var refills: nat
    ghost var starts: nat

    ghost predicate Valid()
      reads this
    {
      && u == USER_AVAIL && ua <= u
      && 1 <= g <= USER_AVAIL * Max(1, segSize - 1)
      && written + ga == granted
      && admitted + ua <= USER_AVAIL * (1 + refills + starts)
    }

    constructor (segSize: nat)
      ensures Valid() && this.segSize == segSize && admitted == written == refills == starts == 0
      ensures u == 1000 && g == 1000 && ga == 1000 && ua == 1000
    {
      this.segSize := segSize;
      u, g, ga, ua := USER_AVAIL, USER_AVAIL, USER_AVAIL, USER_AVAIL;
      admitted, written, granted, refills, starts := 0, 0, USER_AVAIL, 0, 0;
      MulMonotone(1, Max(1, segSize - 1), USER_AVAIL);
    }

    /** A user write asks for a slot, and is throttled when there is none. */
    method UserSlot() returns (throttled: bool)
      requires Valid()
      modifies this
      ensures Valid() && throttled == (old(ua) == 0)
      ensures ua == old(ua) - (if throttled then 0 else 1) && admitted == old(admitted) + if throttled then 0 else 1
      ensures written == old(written) && refills == old(refills) && starts == old(starts)
    {
      throttled := ua == 0;
      if !throttled {
        ua, admitted := ua - 1, admitted + 1;
      }
    }

    /** The collector takes up to `left` pages off its budget; an empty one is refilled, with the users'. */
    method Draw(left: nat) returns (rest: nat)
      requires Valid() && left > 0
      modifies this
      ensures Valid() && admitted == old(admitted) && starts == old(starts) && g == old(g) && u == old(u)
      ensures rest == left - Min(left, old(ga)) && written == old(written) + Min(left, old(ga))
      ensures left < old(ga) ==>
        ga == old(ga) - left && refills == old(refills) && granted == old(granted) && ua == old(ua)
      ensures old(ga) <= left ==> ga == g && refills == old(refills) + 1 && granted == old(granted) + g && ua == u
    {
      var now := if left <= ga then ga - left else 0;
      var used := ga - now;
      rest, ga, written := left - used, now, written + used;
      if now == 0 {
        ua, ga := u, g;
        granted, refills := granted + g, refills + 1;
      }
    }

    static lemma OneMore(n: int, g: int)
      ensures (n + 1) * g == n * g + g
    {
    }

    /** The collector is about to write `n` pages: it uses up as many budgets as that takes, and no
        more. The loop ends because a budget is never empty. */
    method GcSlot(n: nat)
      requires Valid()
      modifies this
      ensures Valid() && written == old(written) + n && admitted == old(admitted) && starts == old(starts)
      ensures g == old(g)
      ensures granted == old(granted) + (refills - old(refills)) * g && old(refills) <= refills
      ensures n > 0 ==> 0 < ga
      ensures ua == if old(refills) < refills then u else old(ua)
      ensures if n < old(ga) || n == 0 then refills == old(refills) && ga == old(ga) - n
              else old(refills) < refills && ga <= g
    {
      var left := n;
      ghost var r := 0;
      while left > 0
        invariant Valid() && 0 <= left <= n && written == old(written) + n - left
        invariant admitted == old(admitted) && starts == old(starts) && g == old(g)
        invariant refills == old(refills) + r && granted == old(granted) + r * g
        invariant left < n ==> 0 < ga
        invariant if r == 0 then ua == old(ua) && ga == old(ga) - (n - left) && (left < n ==> left == 0)
                  else ua == u && ga <= g && 0 < n && old(ga) <= n
        decreases left, if ga == 0 then 1 else 0
      {
        ghost var more := left < ga;
        left := Draw(left);
        if !more {
          OneMore(r, g);
          r := r + 1;
        }
      }
    }

    /** The collector starts: users get a fresh budget. */
    method GcStarts()
      requires Valid()
      modifies this
      ensures Valid() && ua == u && starts == old(starts) + 1 && refills == old(refills)
      ensures admitted == old(admitted) && written == old(written) && g == old(g)
    {
      ua, starts := u, starts + 1;
    }

    /** A segment was chosen for relocation: the next budgets follow its write amplification. */
    method Update(relocs: nat)
      requires Valid() && relocs <= segSize
      modifies this
      ensures Valid() && ga == old(ga) && ua == old(ua) && written == old(written) && admitted == old(admitted)
      ensures refills == old(refills) && starts == old(starts)
      ensures var d := segSize - relocs;
              if 0 < relocs < segSize && d <= 1000 * relocs then g * d <= 1000 * relocs < (g + 1) * d
              else g == old(g)
    {
      if relocs == 0 || segSize <= relocs {
        return;
      }
      var amp := WriteAmp(segSize, relocs);
      WriteAmpIs(segSize, relocs);
      QuotientIsPositive(amp - 1000, segSize - relocs, 1000 * relocs);
      if amp <= USER_AVAIL {
        return;
      }
      WriteAmpBound(segSize, relocs);
      g := amp - USER_AVAIL;
      ua := Min(ua, USER_AVAIL);
    }
  }
}

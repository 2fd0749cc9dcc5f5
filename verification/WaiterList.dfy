/** The doubly linked list of a condition's waiters. A waiter lives in the stack frame of its wait. */
module WaiterList {
  import opened Lists

  class Waiter {
    var previous: Waiter?
    var next: Waiter?
    var linked: bool

    constructor ()
      ensures !linked
    {
      previous, next, linked := null, null, false;
    }
  }

  ghost predicate Chain(s: seq<Waiter>)
    reads s
  {
    forall i, j | 0 <= i < |s| && 0 <= j < |s| && j == i + 1 :: s[i].next == s[j] && s[j].previous == s[i]
  }

  lemma ChainSplits(s: seq<Waiter>, k: nat)
    requires k < |s| && Chain(s)
    ensures Chain(s[..k]) && Chain(s[k + 1..])
    ensures k > 0 ==> s[k].previous == s[k - 1]
    ensures k + 1 < |s| ==> s[k].next == s[k + 1]
  {}

  class Condition {
    var first: Waiter?
    var last: Waiter?
    ghost var waiters: seq<Waiter>

    ghost predicate Valid()
      reads this, waiters
    {
      && IsDistinct(waiters)
      && (forall waiter | waiter in waiters :: waiter.linked)
      && Spells(waiters)
    }

    /** Following the links from either end gives the sequence. */
    ghost predicate Spells(s: seq<Waiter>)
      reads this`first, this`last, s
    {
      && Chain(s)
      && if s == [] then first == null && last == null
         else
           && first == s[0] && s[0].previous == null
           && last == s[|s| - 1] && s[|s| - 1].next == null
    }

    constructor ()
      ensures Valid() && waiters == []
    {
      first, last, waiters := null, null, [];
    }

    /** `append_waiter`. */
    method Append(waiter: Waiter)
      requires Valid() && waiter !in waiters
      modifies this, waiter, waiters
      ensures Valid() && waiters == old(waiters) + [waiter]
    {
      waiter.previous := last;
      waiter.next := null;
      waiter.linked := true;
      if last != null {
        last.next := waiter;
      } else {
        first := waiter;
      }
      last := waiter;
      waiters := waiters + [waiter];
    }

    /** The links around the waiter at place `k` now pass over it. */
    ghost predicate PassesOver(k: nat)
      requires k < |waiters|
      reads this, waiters
    {
      var n := |waiters|;
      && (forall i, j | 0 <= i < n && 0 <= j < n && j == i + 1 && i != k && j != k ::
            waiters[i].next == waiters[j] && waiters[j].previous == waiters[i])
      && (0 < k < n - 1 ==> waiters[k - 1].next == waiters[k + 1] && waiters[k + 1].previous == waiters[k - 1])
      && first == (if k > 0 then waiters[0] else if n > 1 then waiters[1] else null)
      && last == (if k < n - 1 then waiters[n - 1] else if n > 1 then waiters[n - 2] else null)
      && (first != null ==> first.previous == null) && (last != null ==> last.next == null)
    }

    method PassOver(waiter: Waiter, ghost k: nat)
      requires Valid() && k < |waiters| && waiters[k] == waiter
      modifies this`first, this`last, waiters
      ensures PassesOver(k)
      ensures !waiter.linked && forall other | other in waiters && other != waiter :: other.linked
    {
      ChainSplits(waiters, k);
      if waiter.previous != null {
        waiter.previous.next := waiter.next;
      } else {
        first := waiter.next;
      }
      if waiter.next != null {
        waiter.next.previous := waiter.previous;
      } else {
        last := waiter.previous;
      }
      waiter.linked := false;
    }

    lemma PassingOverSpells(k: nat)
      requires k < |waiters| && PassesOver(k)
      ensures Spells(waiters[..k] + waiters[k + 1..])
    {
      var rest := waiters[..k] + waiters[k + 1..];
      forall i, j | 0 <= i < |rest| && 0 <= j < |rest| && j == i + 1
        ensures rest[i].next == rest[j] && rest[j].previous == rest[i]
      {
        assert rest[i] == waiters[if i < k then i else i + 1] && rest[j] == waiters[if j < k then j else j + 1];
      }
    }

    /** `remove_waiter`: whatever stands in the list around it, only this waiter goes. */
    method Remove(waiter: Waiter)
      requires Valid() && (waiter.linked ==> waiter in waiters)
      modifies this, waiter, waiters
      ensures Valid() && waiters == Without(old(waiters), waiter) && !waiter.linked
    {
      hide Without;
      if !waiter.linked {
        WithoutAbsent(waiters, waiter);
        return;
      }
      ghost var k :| 0 <= k < |waiters| && waiters[k] == waiter;
      WithoutSplit(waiters, k);
      WithoutDistinct(waiters, waiter);
      PassOver(waiter, k);
      PassingOverSpells(k);
      hide Spells, PassesOver, IsDistinct;
      waiters := waiters[..k] + waiters[k + 1..];
    }
  }
}

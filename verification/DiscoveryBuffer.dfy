/**
 The sensor's discovery buffers: what was accepted is delivered, dropped at a cap,
 or still held, each discovery in one place and in the order it was accepted.
 */
module DiscoveryBuffer {
  import opened Numbers
  import opened Sequences

  const RETRY_CAP := 1000

  /** The last n elements, or all of them. */
  function LastOf<T>(s: seq<T>, n: nat): seq<T> { if |s| > n then s[|s| - n..] else s }

  ghost predicate Below(s: seq<nat>, n: nat) { forall i :: 0 <= i < |s| ==> s[i] < n }

  /** The acceptance numbers below n. */
  ghost function UpTo(n: nat): set<nat> { if n == 0 then {} else UpTo(n - 1) + {n - 1} }

  /** The elements that stand at some acceptance numbers. */
  ghost function Pick<T>(accepted: seq<T>, numbers: seq<nat>): (r: seq<T>)
    requires Below(numbers, |accepted|)
    ensures |r| == |numbers| && forall i :: 0 <= i < |r| ==> r[i] == accepted[numbers[i]]
  {
    seq(|numbers|, i requires 0 <= i < |numbers| => accepted[numbers[i]])
  }

  /** Where every accepted discovery is, by acceptance number: `delivered` then
      `retry` then `recent` is in acceptance order, and with `dropped` nothing is
      missing and nothing is in two places. */
  datatype Ledger = Ledger(count: nat, delivered: seq<nat>, retry: seq<nat>, recent: seq<nat>, dropped: set<nat>)
  {
    ghost function InOrder(): seq<nat> { delivered + retry + recent }

    ghost predicate Balanced() {
      && Ascending(InOrder()) && Below(InOrder(), count)
      && Elements(InOrder()) !! dropped
      && Elements(InOrder()) + dropped == UpTo(count)
    }

    function Accepted(): Ledger { Ledger(count + 1, delivered, retry, recent + [count], dropped) }

    ghost function RecentCapped(): Ledger {
      this.(recent := LastOf(recent, RETRY_CAP),
            dropped := dropped + Elements(recent[..|recent| - |LastOf(recent, RETRY_CAP)|]))
    }

    function Requeued(): Ledger { this.(retry := retry + recent, recent := []) }

    ghost function RetryCapped(): Ledger {
      this.(retry := LastOf(retry, RETRY_CAP), dropped := dropped + Elements(retry[..|retry| - |LastOf(retry, RETRY_CAP)|]))
    }

    function Delivered(): Ledger { this.(delivered := delivered + retry + recent, retry := [], recent := []) }
  }

  lemma {:induction false} UpToIs(n: nat)
    ensures forall i: nat :: i in UpTo(n) <==> i < n
  {
    if n > 0 { UpToIs(n - 1); }
  }

  lemma AcceptedBalances(l: Ledger)
    requires l.Balanced()
    ensures l.Accepted().Balanced()
  {
    assert l.Accepted().InOrder() == l.InOrder() + [l.count];
    ElementsJoin(l.InOrder(), [l.count]);
    UpToIs(l.count);
    assert Elements([l.count]) == {l.count};
  }

  lemma ElementsJoin(s: seq<nat>, t: seq<nat>)
    ensures Elements(s + t) == Elements(s) + Elements(t)
  {
  }

  /** Dropping a stretch of the queues takes it out of the order and puts it among
      the dropped; everything else stays where it is. */
  lemma CutBalances(a: seq<nat>, b: seq<nat>, c: seq<nat>, dropped: set<nat>, count: nat)
    requires Ascending(a + b + c) && Below(a + b + c, count)
    requires Elements(a + b + c) !! dropped && Elements(a + b + c) + dropped == UpTo(count)
    ensures Ascending(a + c) && Below(a + c, count)
    ensures Elements(a + c) !! dropped + Elements(b) && Elements(a + c) + (dropped + Elements(b)) == UpTo(count)
  {
    var s, t := a + b + c, a + c;
    assert forall i :: 0 <= i < |t| ==> t[i] == s[if i < |a| then i else i + |b|];
    ElementsJoin(a + b, c);
    ElementsJoin(a, b);
    ElementsJoin(a, c);
    assert Elements(t) !! Elements(b) by {
      forall i, j | 0 <= i < |t| && 0 <= j < |b|
        ensures t[i] != b[j]
      {
        assert b[j] == s[|a| + j];
      }
    }
  }

  lemma RecentCappedBalances(l: Ledger)
    requires l.Balanced()
    ensures l.RecentCapped().Balanced() && |l.RecentCapped().recent| <= RETRY_CAP
  {
    hide Ascending, Below, Elements, UpTo;
    var k := |l.recent| - |LastOf(l.recent, RETRY_CAP)|;
    assert l.recent == l.recent[..k] + LastOf(l.recent, RETRY_CAP);
    assert l.InOrder() == (l.delivered + l.retry) + l.recent[..k] + LastOf(l.recent, RETRY_CAP);
    CutBalances(l.delivered + l.retry, l.recent[..k], LastOf(l.recent, RETRY_CAP), l.dropped, l.count);
  }

  lemma RequeuedBalances(l: Ledger)
    requires l.Balanced()
    ensures l.Requeued().Balanced()
  {
    assert l.Requeued().InOrder() == l.InOrder();
  }

  lemma RetryCappedBalances(l: Ledger)
    requires l.Balanced()
    ensures l.RetryCapped().Balanced() && |l.RetryCapped().retry| <= RETRY_CAP
  {
    hide Ascending, Below, Elements, UpTo;
    var last := LastOf(l.retry, RETRY_CAP);
    var k := |l.retry| - |last|;
    assert l.retry == l.retry[..k] + last;
    assert l.InOrder() == l.delivered + l.retry[..k] + (last + l.recent);
    CutBalances(l.delivered, l.retry[..k], last + l.recent, l.dropped, l.count);
    assert l.RetryCapped().InOrder() == l.delivered + (last + l.recent);
  }

  lemma DeliveredBalances(l: Ledger)
    requires l.Balanced()
    ensures l.Delivered().Balanced()
  {
    assert l.Delivered().InOrder() == l.InOrder();
  }

  /** What `processDiscoveries` can meet: test mode, no usable sensor id, or a
      submission that works or fails. */
  datatype Attempt = TestMode | NoSensorId | Submit(ok: bool)

  class Sensor<T> {
    var discoveries: seq<T>
    var pendingRetry: seq<T>
    var retryCount: nat
    ghost var accepted: seq<T>
    ghost var ledger: Ledger

    ghost predicate Valid()
      reads this
    {
      && ledger.Balanced() && ledger.count == |accepted|
      && Below(ledger.retry, |accepted|) && Below(ledger.recent, |accepted|)
      && pendingRetry == Pick(accepted, ledger.retry)
      && discoveries == Pick(accepted, ledger.recent)
      && |pendingRetry| <= RETRY_CAP
    }

    constructor ()
      ensures Valid() && accepted == [] && ledger == Ledger(0, [], [], [], {})
    {
      discoveries, pendingRetry, retryCount := [], [], 0;
      accepted, ledger := [], Ledger(0, [], [], [], {});
    }

    /** handleDiscovery: the oldest of the buffer go when it is over the cap. */
    method HandleDiscovery(discovery: T)
      requires Valid()
      modifies this
      ensures Valid() && accepted == old(accepted) + [discovery]
      ensures ledger == old(ledger).Accepted().RecentCapped() && |discoveries| <= RETRY_CAP
      ensures pendingRetry == old(pendingRetry) && retryCount == old(retryCount)
      ensures var all := old(discoveries) + [discovery];
              discoveries == if |all| > 1000 then all[|all| - 1000..] else all
    {
      hide Ledger.Balanced;
      Append(discovery);
      RecentCappedBalances(ledger);
      KeepsLast(accepted, ledger.recent, RETRY_CAP);
      hide Pick;
      if |discoveries| > RETRY_CAP {
        var overflow := |discoveries| - RETRY_CAP;
        discoveries := discoveries[overflow..];
      }
      ledger := ledger.RecentCapped();
    }

    method Append(discovery: T)
      requires Valid()
      modifies this`discoveries, this`accepted, this`ledger
      ensures Valid() && accepted == old(accepted) + [discovery] && ledger == old(ledger).Accepted()
      ensures discoveries == old(discoveries) + [discovery]
    {
      AcceptedBalances(ledger);
      Grows(accepted, ledger.retry, ledger.recent, discovery);
      discoveries := discoveries + [discovery];
      accepted := accepted + [discovery];
      ledger := ledger.Accepted();
    }

    /** Discoveries flushed by a capture that is being replaced: the cap is not
        applied here, only by the next discovery. */
    method AppendFlushed(flushed: seq<T>)
      requires Valid()
      modifies this
      ensures Valid() && accepted == old(accepted) + flushed && |discoveries| == |old(discoveries)| + |flushed|
      ensures ledger.dropped == old(ledger).dropped && ledger.delivered == old(ledger).delivered
      ensures pendingRetry == old(pendingRetry) && retryCount == old(retryCount)
    {
      for i := 0 to |flushed|
        invariant Valid() && accepted == old(accepted) + flushed[..i] && |discoveries| == |old(discoveries)| + i
        invariant ledger.dropped == old(ledger).dropped && ledger.delivered == old(ledger).delivered
        invariant pendingRetry == old(pendingRetry) && retryCount == old(retryCount)
      {
        Append(flushed[i]);
        assert flushed[..i + 1] == flushed[..i] + [flushed[i]];
      }
      assert flushed[..|flushed|] == flushed;
    }

    /** processDiscoveries: hands over retries first, then new ones; a failure moves
        the new ones behind the retries and caps these. */
    method ProcessDiscoveries(attempt: Attempt) returns (batch: seq<T>)
      requires Valid()
      modifies this
      ensures Valid() && accepted == old(accepted) && |pendingRetry| <= RETRY_CAP
      ensures |discoveries| <= 1000 <==> !attempt.NoSensorId? || |old(discoveries)| <= 1000
      ensures attempt == Submit(false) ==> var all := old(pendingRetry + discoveries);
              pendingRetry == if |all| > 1000 then all[|all| - 1000..] else all
      ensures old(discoveries) == [] && old(pendingRetry) == [] ==>
                batch == [] && ledger == old(ledger) && retryCount == old(retryCount)
      ensures (old(discoveries) != [] || old(pendingRetry) != []) ==>
        match attempt
        case NoSensorId => batch == [] && ledger == old(ledger) && retryCount == old(retryCount)
        case TestMode => batch == old(pendingRetry + discoveries) && ledger == old(ledger).Delivered() && retryCount == 0
        case Submit(ok) =>
          && batch == old(pendingRetry + discoveries) && discoveries == []
          && if ok then ledger == old(ledger).Delivered() && retryCount == 0
             else ledger == old(ledger).Requeued().RetryCapped() && retryCount == old(retryCount) + 1
    {
      if |discoveries| == 0 && |pendingRetry| == 0 {
        return [];
      }
      if attempt.NoSensorId? {
        return [];
      }
      batch := pendingRetry + discoveries;
      if attempt == Submit(false) {
        Requeue();
        return;
      }
      Clear();
    }

    method Requeue()
      requires Valid()
      modifies this
      ensures Valid() && accepted == old(accepted) && discoveries == []
      ensures ledger == old(ledger).Requeued().RetryCapped() && retryCount == old(retryCount) + 1
      ensures pendingRetry == LastOf(old(pendingRetry + discoveries), 1000)
    {
      hide Ledger.Balanced;
      RequeuedBalances(ledger);
      RetryCappedBalances(ledger.Requeued());
      PickJoin(accepted, ledger.retry, ledger.recent);
      KeepsLast(accepted, ledger.retry + ledger.recent, RETRY_CAP);
      pendingRetry := pendingRetry + discoveries;
      discoveries := [];
      retryCount := retryCount + 1;
      if |pendingRetry| > RETRY_CAP {
        var overflow := |pendingRetry| - RETRY_CAP;
        pendingRetry := pendingRetry[overflow..];
      }
      ledger := ledger.Requeued().RetryCapped();
    }

    method Clear()
      requires Valid()
      modifies this
      ensures Valid() && accepted == old(accepted) && discoveries == [] && pendingRetry == []
      ensures ledger == old(ledger).Delivered() && retryCount == 0
    {
      hide Ledger.Balanced;
      DeliveredBalances(ledger);
      discoveries := [];
      pendingRetry := [];
      retryCount := 0;
      ledger := ledger.Delivered();
    }
  }

  /** A flush of more than the cap stays in the buffer while there is no sensor id. */
  method OverfullStays<T>(s: Sensor<T>, flushed: seq<T>) returns (batch: seq<T>)
    requires s.Valid() && |flushed| > RETRY_CAP
    modifies s
    ensures s.Valid() && |s.discoveries| == |old(s.discoveries)| + |flushed| > RETRY_CAP && batch == []
  {
    s.AppendFlushed(flushed);
    batch := s.ProcessDiscoveries(NoSensorId);
  }

  lemma KeepsLast<T>(accepted: seq<T>, numbers: seq<nat>, n: nat)
    requires Below(numbers, |accepted|)
    ensures Below(LastOf(numbers, n), |accepted|)
    ensures Pick(accepted, LastOf(numbers, n)) == LastOf(Pick(accepted, numbers), n)
  {
  }

  lemma PickJoin<T>(accepted: seq<T>, a: seq<nat>, b: seq<nat>)
    requires Below(a, |accepted|) && Below(b, |accepted|)
    ensures Below(a + b, |accepted|) && Pick(accepted, a + b) == Pick(accepted, a) + Pick(accepted, b)
  {
  }

  lemma Grows<T>(accepted: seq<T>, retry: seq<nat>, recent: seq<nat>, discovery: T)
    requires Below(retry, |accepted|) && Below(recent, |accepted|)
    ensures var more := accepted + [discovery];
            && Below(retry, |more|) && Below(recent + [|accepted|], |more|)
            && Pick(more, retry) == Pick(accepted, retry)
            && Pick(more, recent + [|accepted|]) == Pick(accepted, recent) + [discovery]
  {
  }
}

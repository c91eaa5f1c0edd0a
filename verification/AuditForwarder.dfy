/**
 * internal/auditfwd/forwarder.go: a bounded buffer between audit sources and the control plane.
 * Sources and the reporter may fail at any call.
 */
module AuditForwarder {
  import opened Prelude

  datatype Entry = Entry(source: string, message: string)

  const CAPACITY_MULTIPLIER: nat := 2

  function Range(a: nat, b: nat): (r: seq<nat>)
    requires a <= b
    ensures |r| == b - a && forall i | 0 <= i < |r| :: r[i] == a + i
  {
    seq(b - a, i requires 0 <= i < b - a => a + i)
  }

  function Positions(a: nat, b: nat): set<nat>
    requires a <= b
  {
    set i | i in Range(a, b)
  }

  lemma PositionsBetween(a: nat, b: nat, i: nat)
    requires a <= b
    ensures i in Positions(a, b) <==> a <= i < b
  {
    if a <= i < b {
      assert Range(a, b)[i - a] == i;
    }
  }

  /** How many of n entries fit the buffer. */
  function Bounded(n: nat, batchSize: nat): nat
  {
    if n <= CAPACITY_MULTIPLIER * batchSize then n else CAPACITY_MULTIPLIER * batchSize
  }

  /** What remains of a batch once its chunks are reported until one report fails. */
  function Unsent(batch: seq<Entry>, batchSize: nat, reportFails: nat -> bool, call: nat): seq<Entry>
    requires batchSize >= 1
    decreases |batch|
  {
    if batch == [] then []
    else if reportFails(call) then batch
    else Unsent(batch[ChunkSize(batch, batchSize)..], batchSize, reportFails, call + 1)
  }

  lemma {:induction false} AllSent(batch: seq<Entry>, batchSize: nat, reportFails: nat -> bool, call: nat)
    requires batchSize >= 1 && forall n: nat :: !reportFails(n)
    ensures Unsent(batch, batchSize, reportFails, call) == []
    decreases |batch|
  {
    if batch == [] {
    } else {
      AllSent(batch[ChunkSize(batch, batchSize)..], batchSize, reportFails, call + 1);
    }
  }

  /** The first failing report leaves everything but the full batches before it. */
  lemma {:induction false} UnsentAfter(
    batch: seq<Entry>, batchSize: nat, reportFails: nat -> bool, call: nat, k: nat)
    requires batchSize >= 1 && k * batchSize < |batch|
    requires reportFails(call + k) && forall i | call <= i < call + k :: !reportFails(i)
    ensures Unsent(batch, batchSize, reportFails, call) == batch[k * batchSize..]
    decreases k
  {
    if k == 0 {
    } else {
      FullBatch(k, batchSize);
      UnsentAfter(batch[batchSize..], batchSize, reportFails, call + 1, k - 1);
    }
  }

  lemma FullBatch(k: nat, batchSize: nat)
    requires k > 0
    ensures k * batchSize == (k - 1) * batchSize + batchSize && batchSize <= k * batchSize
  {
  }

  function ChunkSize(batch: seq<Entry>, batchSize: nat): nat
  {
    if batchSize < |batch| then batchSize else |batch|
  }

  predicate Suffix(part: seq<Entry>, whole: seq<Entry>)
  {
    |part| <= |whole| && part == whole[|whole| - |part|..]
  }

  lemma SuffixMoves(part: seq<Entry>, whole: seq<Entry>, n: nat, more: seq<Entry>)
    requires Suffix(part, whole)
    ensures n <= |part| ==> Suffix(part[n..], whole) && part[..n] == whole[|whole| - |part|..][..n]
    ensures Suffix(part + more, whole + more)
  {
  }

  predicate Increasing(s: seq<nat>)
  {
    forall i, j | 0 <= i < j < |s| :: s[i] < s[j]
  }

  /**
   * Every position below `head` was delivered or dropped, not both; `delivered` is in order and
   * without repetition.
   */
  predicate Accounted(head: nat, delivered: seq<nat>, dropped: set<nat>)
  {
    && Increasing(delivered)
    && (forall i | 0 <= i < head :: i in delivered <==> i !in dropped)
    && (forall i | i in delivered :: i < head)
    && (forall i | i in dropped :: i < head)
  }

  lemma DeliverMore(head: nat, n: nat, delivered: seq<nat>, dropped: set<nat>)
    requires Accounted(head, delivered, dropped)
    ensures Accounted(head + n, delivered + Range(head, head + n), dropped)
  {
    var more := delivered + Range(head, head + n);
    forall i, j | 0 <= i < j < |more|
      ensures more[i] < more[j]
    {
      if i < |delivered| {
        assert delivered[i] in delivered;
      }
    }
    forall i | 0 <= i < head + n
      ensures i in more <==> i !in dropped
    {
      if i >= head {
        assert Range(head, head + n)[i - head] == i;
      }
    }
  }

  lemma DropMore(head: nat, n: nat, delivered: seq<nat>, dropped: set<nat>)
    requires Accounted(head, delivered, dropped)
    ensures Accounted(head + n, delivered, dropped + Positions(head, head + n))
  {
    var more := dropped + Positions(head, head + n);
    forall i | 0 <= i < head + n
      ensures i in delivered <==> i !in more
    {
      PositionsBetween(head, head + n, i);
    }
    forall i | i in more
      ensures i < head + n
    {
      PositionsBetween(head, head + n, i);
    }
  }

  /** The control plane received the collected entries at the delivered positions. */
  predicate Faithful(collected: seq<Entry>, delivered: seq<nat>, received: seq<Entry>)
  {
    && |received| == |delivered|
    && forall i | 0 <= i < |received| :: delivered[i] < |collected| && received[i] == collected[delivered[i]]
  }

  class Forwarder {
    const batchSize: nat
    const reportFails: nat -> bool
    var buffer: seq<Entry>
    var reports: nat
    ghost var collected: seq<Entry>      // everything sources handed over, in order
    ghost var delivered: seq<nat>        // positions in `collected`, in the order of delivery
    ghost var received: seq<Entry>       // what the control plane accepted
    ghost var dropped: set<nat>          // positions lost to overflow
    ghost var batches: seq<nat>          // sizes of the accepted batches

    constructor (batchSize: nat, reportFails: nat -> bool)
      requires batchSize >= 1
      ensures Valid() && collected == [] && this.batchSize == batchSize && this.reportFails == reportFails
    {
      this.batchSize, this.reportFails := batchSize, reportFails;
      buffer, reports, collected, delivered, received, dropped, batches := [], 0, [], [], [], {}, [];
    }

    ghost predicate Valid()
      reads this
    {
      && batchSize >= 1
      && |buffer| <= CAPACITY_MULTIPLIER * batchSize
      && Suffix(buffer, collected)
      && Accounted(|collected| - |buffer|, delivered, dropped)
      && Faithful(collected, delivered, received)
      && Sized(batches, batchSize)
    }

    /** Drops the oldest entries of an overfull buffer. */
    method EnforceCapacity()
      requires Suffix(buffer, collected) && Accounted(|collected| - |buffer|, delivered, dropped)
      modifies this`buffer, this`dropped
      ensures Suffix(buffer, collected) && Accounted(|collected| - |buffer|, delivered, dropped)
      ensures |buffer| == Bounded(|old(buffer)|, batchSize)
      ensures |old(buffer)| <= 2 * batchSize ==> buffer == old(buffer) && dropped == old(dropped)
      ensures |old(buffer)| > 2 * batchSize ==> |buffer| == 2 * batchSize
    {
      var limit := CAPACITY_MULTIPLIER * batchSize;
      if |buffer| > limit {
        ghost var head, n := |collected| - |buffer|, |buffer| - limit;
        DropMore(head, n, delivered, dropped);
        SuffixMoves(buffer, collected, n, []);
        dropped := dropped + Positions(head, head + n);
        buffer := buffer[|buffer| - limit..];
      }
    }

    method Append(entries: seq<Entry>)
      requires Valid()
      modifies this`buffer, this`collected, this`dropped
      ensures Valid() && collected == old(collected) + entries
      ensures |buffer| == Bounded(|old(buffer)| + |entries|, batchSize)
    {
      SuffixMoves(buffer, collected, 0, entries);
      collected := collected + entries;
      buffer := buffer + entries;
      EnforceCapacity();
    }

    /** One round over the sources; a source that fails or panics contributes nothing. */
    method Collect(sources: seq<Option<seq<Entry>>>)
      requires Valid()
      modifies this`buffer, this`collected, this`dropped
      ensures Valid() && collected == old(collected) + Gathered(sources)
      ensures |buffer| == Bounded(|old(buffer)| + |Gathered(sources)|, batchSize)
    {
      for k := 0 to |sources|
        invariant Valid() && collected == old(collected) + Gathered(sources[..k])
        invariant |buffer| == Bounded(|old(buffer)| + |Gathered(sources[..k])|, batchSize)
      {
        assert sources[..k + 1][..k] == sources[..k];
        if sources[k] == None {
          continue;
        }
        Append(sources[k].value);
      }
      assert sources[..|sources|] == sources;
    }

    /** Reports the next chunk; on success it has become the control plane's. */
    method SendChunk(batch: seq<Entry>) returns (rest: Option<seq<Entry>>)
      requires batchSize >= 1 && |batch| > 0 && Suffix(batch, collected)
      requires Accounted(|collected| - |batch|, delivered, dropped)
      requires Faithful(collected, delivered, received) && Sized(batches, batchSize)
      modifies this`reports, this`delivered, this`received, this`batches
      ensures rest == None <==> reportFails(old(reports))
      ensures rest == None ==> unchanged(this`delivered) && unchanged(this`received) && unchanged(this`batches)
      ensures reports == old(reports) + 1
      ensures rest.Some? ==> rest.value == batch[ChunkSize(batch, batchSize)..] && Suffix(rest.value, collected)
      ensures rest.Some? ==> Accounted(|collected| - |rest.value|, delivered, dropped)
      ensures Faithful(collected, delivered, received) && Sized(batches, batchSize)
    {
      var chunk := batch[..ChunkSize(batch, batchSize)];
      var failed := reportFails(reports);
      reports := reports + 1;
      if failed {
        return None;
      }
      ghost var head := |collected| - |batch|;
      DeliverMore(head, |chunk|, delivered, dropped);
      SuffixMoves(batch, collected, |chunk|, []);
      delivered, received := delivered + Range(head, head + |chunk|), received + chunk;
      batches := batches + [|chunk|];
      rest := Some(batch[|chunk|..]);
    }

    /** Sends the buffer in batches; what could not be sent goes back. Nothing is dropped here. */
    method Flush()
      requires Valid()
      modifies this`buffer, this`dropped, this`reports, this`delivered, this`received, this`batches
      ensures Valid() && dropped == old(dropped)
      ensures buffer == Unsent(old(buffer), batchSize, reportFails, old(reports))
    {
      var batch := buffer;
      buffer := [];
      while |batch| > 0
        invariant buffer == [] && |batch| <= |old(buffer)| && Suffix(batch, collected)
        invariant Unsent(batch, batchSize, reportFails, reports)
               == Unsent(old(buffer), batchSize, reportFails, old(reports))
        invariant Accounted(|collected| - |batch|, delivered, dropped) && dropped == old(dropped)
        invariant Faithful(collected, delivered, received) && Sized(batches, batchSize)
        decreases |batch|
      {
        var rest := SendChunk(batch);
        if rest == None {
          buffer := batch + buffer;
          assert buffer == batch;
          EnforceCapacity();
          return;
        }
        batch := rest.value;
      }
    }
  }

  predicate Sized(batches: seq<nat>, batchSize: nat)
  {
    forall i | 0 <= i < |batches| :: 1 <= batches[i] <= batchSize
  }

  function Gathered(sources: seq<Option<seq<Entry>>>): seq<Entry>
  {
    if sources == [] then []
    else Gathered(sources[..|sources| - 1]) + if sources[|sources| - 1].Some? then sources[|sources| - 1].value else []
  }

  datatype Op = CollectOp(sources: seq<Option<seq<Entry>>>) | FlushOp

  /**
   * Any serial run of collections and flushes, with arbitrary failures: the buffer is a bounded suffix
   * of everything collected, and every earlier entry was delivered once and in order, or dropped.
   */
  method Run(f: Forwarder, ops: seq<Op>)
    requires f.Valid() && f.collected == []
    modifies f
    ensures |f.buffer| <= 2 * f.batchSize && Suffix(f.buffer, f.collected)
    ensures Accounted(|f.collected| - |f.buffer|, f.delivered, f.dropped)
    ensures Faithful(f.collected, f.delivered, f.received) && Sized(f.batches, f.batchSize)
    ensures |f.delivered| + |f.dropped| + |f.buffer| == |f.collected|
  {
    for i := 0 to |ops|
      invariant f.Valid()
    {
      match ops[i]
      case CollectOp(sources) => f.Collect(sources);
      case FlushOp => f.Flush();
    }
    AccountedSizes(|f.collected| - |f.buffer|, f.delivered, f.dropped);
  }

  lemma HasMember(s: seq<nat>)
    requires s != []
    ensures exists i :: i in s
  {
    assert s[0] in s;
  }

  /** The counts add up because no position is delivered twice. */
  lemma {:induction false} AccountedSizes(head: nat, delivered: seq<nat>, dropped: set<nat>)
    requires Accounted(head, delivered, dropped)
    ensures |delivered| + |dropped| == head
    decreases head
  {
    if head == 0 {
      if delivered != [] {
        HasMember(delivered);
      }
      assert dropped == {};
    } else {
      var last := head - 1;
      if last in dropped {
        assert Accounted(last, delivered, dropped - {last});
        AccountedSizes(last, delivered, dropped - {last});
      } else {
        LastDelivered(head, delivered, dropped);
        AccountedSizes(last, delivered[..|delivered| - 1], dropped);
      }
    }
  }

  lemma LastDelivered(head: nat, delivered: seq<nat>, dropped: set<nat>)
    requires head > 0 && Accounted(head, delivered, dropped) && head - 1 !in dropped
    ensures delivered != [] && delivered[|delivered| - 1] == head - 1
    ensures Accounted(head - 1, delivered[..|delivered| - 1], dropped)
  {
    var last := head - 1;
    assert last in delivered;
    var k :| 0 <= k < |delivered| && delivered[k] == last;
    assert delivered[|delivered| - 1] in delivered;
    var front := delivered[..|delivered| - 1];
    forall i | 0 <= i < last
      ensures i in front <==> i !in dropped
    {
      if i in delivered {
        var j :| 0 <= j < |delivered| && delivered[j] == i;
        assert front[j] == i;
      }
    }
    forall i | i in front
      ensures i < last
    {
      var j :| 0 <= j < |front| && front[j] == i;
      assert delivered[j] < delivered[|delivered| - 1];
    }
  }
}

/** Retrying a rejected push by ordered bisection (lib/brain/asset-transport.js). The server is any
    function from the requests it has already seen and the new one to a status. */
module AssetBisection {
  import opened AssetTransport

  datatype Leaf<T> = Leaf(batch: Batch<T>, status: int)

  type Server<!T> = (seq<Batch<T>>, Batch<T>) -> int

  const TOO_LARGE := 413

  /** The requests on the wire after the call, and its result. */
  function Bisect<T>(size: Size<T>, server: Server<T>, sent: seq<Batch<T>>, batch: Batch<T>)
    : (seq<Batch<T>>, seq<Leaf<T>>)
    requires batch.items != []
    decreases |batch.items|
  {
    var status := server(sent, batch);
    if status != TOO_LARGE || |batch.items| == 1 then (sent + [batch], [Leaf(batch, status)])
    else
      var midpoint := |batch.items| / 2;
      var left := Bisect(size, server, sent + [batch], Serialize(size, batch.items[..midpoint]));
      var right := Bisect(size, server, left.0, Serialize(size, batch.items[midpoint..]));
      (right.0, left.1 + right.1)
  }

  function LeafItems<T>(leaves: seq<Leaf<T>>): seq<T> {
    if leaves == [] then [] else leaves[0].batch.items + LeafItems(leaves[1..])
  }

  lemma {:induction false} LeafItemsSplit<T>(a: seq<Leaf<T>>, b: seq<Leaf<T>>)
    ensures LeafItems(a + b) == LeafItems(a) + LeafItems(b)
  {
    if a == [] {
      assert a + b == b;
    } else {
      assert (a + b)[1..] == a[1..] + b;
      LeafItemsSplit(a[1..], b);
    }
  }

  /** The leaves are the original items in order; the number of requests is one less than twice the number
      of leaves, so at most 2n - 1; the log only grows. */
  lemma {:induction false} BisectionConserves<T>(size: Size<T>, server: Server<T>, sent: seq<Batch<T>>, batch: Batch<T>)
    requires batch.items != []
    ensures var (log, leaves) := Bisect(size, server, sent, batch);
            && LeafItems(leaves) == batch.items
            && 1 <= |leaves| <= |batch.items|
            && |log| == |sent| + 2 * |leaves| - 1
            && sent <= log
    decreases |batch.items|
  {
    if server(sent, batch) == TOO_LARGE && |batch.items| > 1 {
      var midpoint := |batch.items| / 2;
      var l, r := Serialize(size, batch.items[..midpoint]), Serialize(size, batch.items[midpoint..]);
      BisectionConserves(size, server, sent + [batch], l);
      var left := Bisect(size, server, sent + [batch], l);
      BisectionConserves(size, server, left.0, r);
      var right := Bisect(size, server, left.0, r);
      LeafItemsSplit(left.1, right.1);
      assert batch.items == l.items + r.items;
      assert Bisect(size, server, sent, batch) == (right.0, left.1 + right.1);
    }
  }

  /** This leaf is the k-th request of the log and carries the server's answer to it. */
  ghost predicate AnsweredAt<T>(server: Server<T>, log: seq<Batch<T>>, leaf: Leaf<T>, k: nat)
    requires k < |log|
  {
    log[k] == leaf.batch && leaf.status == server(log[..k], leaf.batch)
  }

  /** Every leaf is non-empty, carries the server's own answer to its own request, and only a single item
      is ever given up on. */
  lemma {:induction false} LeavesAreFinal<T>(size: Size<T>, server: Server<T>, sent: seq<Batch<T>>, batch: Batch<T>,
                                             leaf: Leaf<T>)
    requires batch.items != [] && leaf in Bisect(size, server, sent, batch).1
    ensures leaf.batch.items != []
    ensures leaf.status == TOO_LARGE ==> |leaf.batch.items| == 1
    ensures leaf.batch == batch || leaf.batch == Serialize(size, leaf.batch.items)
    ensures var log := Bisect(size, server, sent, batch).0;
            exists k: nat :: |sent| <= k < |log| && AnsweredAt(server, log, leaf, k)
    decreases |batch.items|
  {
    var log := Bisect(size, server, sent, batch).0;
    if server(sent, batch) != TOO_LARGE || |batch.items| == 1 {
      assert log[..|sent|] == sent;
      assert AnsweredAt(server, log, leaf, |sent|);
    } else {
      var midpoint := |batch.items| / 2;
      var l, r := Serialize(size, batch.items[..midpoint]), Serialize(size, batch.items[midpoint..]);
      var left := Bisect(size, server, sent + [batch], l);
      var right := Bisect(size, server, left.0, r);
      BisectionConserves(size, server, sent + [batch], l);
      BisectionConserves(size, server, left.0, r);
      if leaf in left.1 {
        LeavesAreFinal(size, server, sent + [batch], l, leaf);
        var k: nat :| |sent| < k < |left.0| && AnsweredAt(server, left.0, leaf, k);
        assert log[..k] == left.0[..k];
        assert AnsweredAt(server, log, leaf, k);
      } else {
        LeavesAreFinal(size, server, left.0, r, leaf);
      }
    }
  }

  /** Only a 413 for several items is retried: every other answer to a request of the log is a leaf of the result. */
  lemma {:induction false} EveryOtherAnswerIsFinal<T>(size: Size<T>, server: Server<T>, sent: seq<Batch<T>>,
                                                      batch: Batch<T>, k: nat)
    requires batch.items != []
    requires |sent| <= k < |Bisect(size, server, sent, batch).0|
    ensures var (log, leaves) := Bisect(size, server, sent, batch);
            server(log[..k], log[k]) != TOO_LARGE || |log[k].items| == 1 ==>
              Leaf(log[k], server(log[..k], log[k])) in leaves
    decreases |batch.items|
  {
    var log := Bisect(size, server, sent, batch).0;
    BisectionConserves(size, server, sent, batch);
    if server(sent, batch) == TOO_LARGE && |batch.items| > 1 {
      var midpoint := |batch.items| / 2;
      var l, r := Serialize(size, batch.items[..midpoint]), Serialize(size, batch.items[midpoint..]);
      var left := Bisect(size, server, sent + [batch], l);
      BisectionConserves(size, server, sent + [batch], l);
      BisectionConserves(size, server, left.0, r);
      assert log[|sent|] == left.0[|sent|] == batch && log[..|sent|] == left.0[..|sent|] == sent;
      if |sent| < k < |left.0| {
        EveryOtherAnswerIsFinal(size, server, sent + [batch], l, k);
        assert log[..k] == left.0[..k] && log[k] == left.0[k];
      } else if k >= |left.0| {
        EveryOtherAnswerIsFinal(size, server, left.0, r, k);
      }
    } else {
      assert log[..|sent|] == sent && log[|sent|] == batch;
    }
  }

  /** A retry sends the first half next, and the second half, as request `k`, when the first is done: the halves differ
      by at most one item. */
  lemma HalvesAreEven<T>(size: Size<T>, server: Server<T>, sent: seq<Batch<T>>, batch: Batch<T>)
    returns (k: nat, n: nat)
    requires |batch.items| > 1 && server(sent, batch) == TOO_LARGE
    ensures var log := Bisect(size, server, sent, batch).0;
            && |sent| + 1 < k < |log| && n <= |batch.items|
            && log[|sent| + 1].items == batch.items[..n] && log[k].items == batch.items[n..]
            && |batch.items| - n - 1 <= n <= |batch.items| - n
  {
    n := |batch.items| / 2;
    var l, r := Serialize(size, batch.items[..n]), Serialize(size, batch.items[n..]);
    var left := Bisect(size, server, sent + [batch], l);
    var log := Bisect(size, server, sent, batch).0;
    assert log == Bisect(size, server, left.0, r).0;
    BisectionConserves(size, server, sent + [batch], l);
    BisectionConserves(size, server, left.0, r);
    FirstRequest(size, server, sent + [batch], l);
    FirstRequest(size, server, left.0, r);
    k := |left.0|;
    assert log[|sent| + 1] == left.0[|sent| + 1];
  }

  /** The most items that `depth` halvings bring down to single ones. */
  function Halvable(depth: nat): nat {
    if depth == 0 then 1 else 2 * Halvable(depth - 1)
  }

  function ItemsSent<T>(log: seq<Batch<T>>): nat {
    if log == [] then 0 else ItemsSent(log[..|log| - 1]) + |log[|log| - 1].items|
  }

  /** What a call puts on the wire: its own request, then what the two halves put there. */
  lemma RequestsOfHalves<T>(size: Size<T>, server: Server<T>, sent: seq<Batch<T>>, batch: Batch<T>)
    returns (first: seq<Batch<T>>, l: Batch<T>, middle: seq<Batch<T>>, r: Batch<T>)
    requires |batch.items| > 1 && server(sent, batch) == TOO_LARGE
    ensures |l.items| == |batch.items| / 2 && |l.items| + |r.items| == |batch.items|
    ensures ItemsSent(first) == ItemsSent(sent) + |batch.items|
    ensures l.items != [] && middle == Bisect(size, server, first, l).0
    ensures r.items != [] && Bisect(size, server, sent, batch).0 == Bisect(size, server, middle, r).0
  {
    var n := |batch.items| / 2;
    first, l, r := sent + [batch], Serialize(size, batch.items[..n]), Serialize(size, batch.items[n..]);
    middle := Bisect(size, server, first, l).0;
    assert first[..|sent|] == sent;
  }

  /** The halving is at most log2 n deep: over all requests, an item is sent at most depth + 1 times on average. */
  lemma {:induction false} ItemsAreResentRarely<T>(size: Size<T>, server: Server<T>, sent: seq<Batch<T>>,
                                                   batch: Batch<T>, depth: nat)
    requires 0 < |batch.items| <= Halvable(depth)
    ensures ItemsSent(Bisect(size, server, sent, batch).0) <= ItemsSent(sent) + |batch.items| * (depth + 1)
    decreases depth
  {
    if server(sent, batch) == TOO_LARGE && |batch.items| > 1 {
      var first, l, middle, r := RequestsOfHalves(size, server, sent, batch);
      ItemsAreResentRarely(size, server, first, l, depth - 1);
      ItemsAreResentRarely(size, server, middle, r, depth - 1);
      var upTo, all := ItemsSent(middle), ItemsSent(Bisect(size, server, middle, r).0);
      SharedDepth(ItemsSent(sent), |l.items|, |r.items|, depth, upTo, all);
    } else {
      assert (sent + [batch])[..|sent|] == sent;
      var all := ItemsSent(sent + [batch]);
      assert Bisect(size, server, sent, batch).0 == sent + [batch];
      SharedDepth(ItemsSent(sent), |batch.items|, 0, depth, all, all);
    }
  }

  lemma SharedDepth(sent: nat, a: nat, b: nat, depth: nat, middle: nat, all: nat)
    requires middle <= sent + (a + b) + a * depth && all <= middle + b * depth
    ensures all <= sent + (a + b) * (depth + 1)
  {
    assert (a + b) * (depth + 1) == a * depth + b * depth + (a + b);
  }

  lemma FirstRequest<T>(size: Size<T>, server: Server<T>, sent: seq<Batch<T>>, batch: Batch<T>)
    requires batch.items != []
    ensures var log := Bisect(size, server, sent, batch).0;
            |sent| < |log| && log[|sent|] == batch
  {
    BisectionConserves(size, server, sent, batch);
    if server(sent, batch) == TOO_LARGE && |batch.items| > 1 {
      var midpoint := |batch.items| / 2;
      var l, r := Serialize(size, batch.items[..midpoint]), Serialize(size, batch.items[midpoint..]);
      BisectionConserves(size, server, sent + [batch], l);
      BisectionConserves(size, server, Bisect(size, server, sent + [batch], l).0, r);
    }
  }

  class Client<T> {
    const size: Size<T>
    const server: Server<T>
    var sent: seq<Batch<T>>
    var reported: seq<Leaf<T>>

    constructor (size: Size<T>, server: Server<T>)
      ensures this.size == size && this.server == server && sent == [] && reported == []
    {
      this.size, this.server := size, server;
      sent, reported := [], [];
    }

    method Send(batch: Batch<T>) returns (status: int)
      modifies this`sent
      ensures status == server(old(sent), batch) && sent == old(sent) + [batch]
    {
      status := server(sent, batch);
      sent := sent + [batch];
    }

    /** The leaf callback sees each leaf once, in the order of the result. */
    method SendWith413Split(batch: Batch<T>) returns (results: seq<Leaf<T>>)
      requires batch.items != []
      modifies this`sent, this`reported
      ensures (sent, results) == Bisect(size, server, old(sent), batch)
      ensures reported == old(reported) + results
      decreases |batch.items|
    {
      var status := Send(batch);
      if status != TOO_LARGE || |batch.items| == 1 {
        reported := reported + [Leaf(batch, status)];
        return [Leaf(batch, status)];
      }
      var midpoint := |batch.items| / 2;
      var l, r := Serialize(size, batch.items[..midpoint]), Serialize(size, batch.items[midpoint..]);
      var left := SendWith413Split(l);
      var right := SendWith413Split(r);
      assert reported == old(reported) + (left + right);
      return left + right;
    }
  }
}

/**
 * The sampling loop `measure` of scripts/coap_latency.py: which replies are
 * credited to which requests, under a message id that wraps at 16 bits.
 */
module Measurement {
  import opened Bytes

  /** The id of request `i`, counted from the random start value (119-121). */
  function RequestId(mid0: nat, i: nat): nat {
    (mid0 + 1 + i) % 0x1_0000
  }

  /** The datagram is long enough to have a message id, and it is `mid`. */
  predicate Carries(data: bytes, mid: nat) {
    |data| >= 4 && (data[2] as nat) * 256 + data[3] as nat == mid
  }

  /** The first datagram received for request `i` that is credited; none means a timeout. */
  function Credited(inbox: seq<bytes>, mid: nat): Option<nat> {
    if inbox == [] then None
    else if Carries(inbox[0], mid) then Some(0)
    else
      var r := Credited(inbox[1..], mid);
      if r.None? then None else Some(r.value + 1)
  }

  lemma {:induction false} CreditedIsFirst(inbox: seq<bytes>, mid: nat)
    ensures var r := Credited(inbox, mid);
            match r
            case None => forall k :: 0 <= k < |inbox| ==> !Carries(inbox[k], mid)
            case Some(c) => c < |inbox| && Carries(inbox[c], mid) && forall k :: 0 <= k < c ==> !Carries(inbox[k], mid)
  {
    if inbox != [] {
      CreditedIsFirst(inbox[1..], mid);
      forall k | 0 < k < |inbox| ensures inbox[k] == inbox[1..][k - 1] {}
    }
  }

  /** One credited sample: the request's index and the datagram's position among those received for it. */
  datatype Sample = Sample(request: nat, datagram: nat)

  /** The requests from `warmup` on that were answered among the first `n`. */
  function Samples(mid0: nat, warmup: nat, inboxes: seq<seq<bytes>>, n: nat): seq<Sample>
    requires n <= |inboxes|
  {
    if n == 0 then []
    else
      var c := Credited(inboxes[n - 1], RequestId(mid0, n - 1));
      Samples(mid0, warmup, inboxes, n - 1)
      + if n - 1 >= warmup && c.Some? then [Sample(n - 1, c.value)] else []
  }

  function Shifted(r: Option<nat>, k: nat): Option<nat> {
    if r.None? then None else Some(r.value + k)
  }

  /** Lines 124-133: receiving until a datagram matches or the socket times out. */
  method Receive(inbox: seq<bytes>, mid: nat) returns (rtt: Option<nat>)
    ensures rtt == Credited(inbox, mid)
  {
    rtt := None;
    var k := 0;
    while k < |inbox|
      invariant 0 <= k <= |inbox|
      invariant Credited(inbox, mid) == Shifted(Credited(inbox[k..], mid), k)
    {
      if Carries(inbox[k], mid) {
        return Some(k);
      }
      assert inbox[k..][1..] == inbox[k + 1..];
      k := k + 1;
    }
  }

  /** The loop's `mid` after `i` requests. */
  function IdAfter(mid0: nat, i: nat): nat {
    if i == 0 then mid0 else RequestId(mid0, i - 1)
  }

  lemma NextId(mid0: nat, i: nat)
    requires mid0 < 0x1_0000
    ensures (IdAfter(mid0, i) + 1) % 0x1_0000 == RequestId(mid0, i) == IdAfter(mid0, i + 1)
  {
  }

  /**
   * `measure`: `inboxes[i]` are the datagrams that arrive between sending
   * request `i` and the timeout.  Times are left out; a sample stands for one.
   */
  method Measure(mid0: nat, count: nat, warmup: nat, inboxes: seq<seq<bytes>>) returns (rtts: seq<Sample>, losses: nat)
    requires mid0 < 0x1_0000 && |inboxes| == count + warmup
    ensures rtts == Samples(mid0, warmup, inboxes, |inboxes|)
    ensures |rtts| + losses == count
  {
    rtts := [];
    losses := 0;
    var mid := mid0;
    for i := 0 to count + warmup
      invariant mid == IdAfter(mid0, i)
      invariant rtts == Samples(mid0, warmup, inboxes, i)
      invariant |rtts| + losses == if i < warmup then 0 else i - warmup
    {
      NextId(mid0, i);
      mid := (mid + 1) % 0x1_0000;
      var rtt := Receive(inboxes[i], mid);
      if i < warmup {
        continue;
      }
      if rtt.None? {
        losses := losses + 1;
      } else {
        rtts := rtts + [Sample(i, rtt.value)];
      }
    }
  }

  /**
   * Nothing is lost and nothing is invented: the samples are, in the order of
   * their requests, exactly the first matching datagrams of all requests from
   * `warmup` on that received one.
   */
  lemma {:induction false} SamplesExact(mid0: nat, warmup: nat, inboxes: seq<seq<bytes>>, n: nat)
    requires n <= |inboxes|
    ensures var ss := Samples(mid0, warmup, inboxes, n);
            && (forall s :: s in ss <==> s.request < n && IsSample(mid0, warmup, inboxes, s))
            && (forall a, b :: 0 <= a < b < |ss| ==> ss[a].request < ss[b].request)
    decreases n
  {
    if n > 0 {
      SamplesExact(mid0, warmup, inboxes, n - 1);
      CreditedIsFirst(inboxes[n - 1], RequestId(mid0, n - 1));
    }
  }

  /** Request `s.request` counts, and datagram `s.datagram` is the first to match it. */
  ghost predicate IsSample(mid0: nat, warmup: nat, inboxes: seq<seq<bytes>>, s: Sample) {
    && warmup <= s.request < |inboxes| && s.datagram < |inboxes[s.request]|
    && Carries(inboxes[s.request][s.datagram], RequestId(mid0, s.request))
    && forall k :: 0 <= k < s.datagram ==> !Carries(inboxes[s.request][k], RequestId(mid0, s.request))
  }

  /** In particular every counted request with a matching datagram has a sample. */
  lemma AnsweredIsSampled(mid0: nat, warmup: nat, inboxes: seq<seq<bytes>>, n: nat, i: nat, k: nat)
    requires warmup <= i < n <= |inboxes| && k < |inboxes[i]| && Carries(inboxes[i][k], RequestId(mid0, i))
    ensures exists s :: s in Samples(mid0, warmup, inboxes, n) && s.request == i && s.datagram <= k
  {
    CreditedIsFirst(inboxes[i], RequestId(mid0, i));
    SamplesExact(mid0, warmup, inboxes, n);
    var s := Sample(i, Credited(inboxes[i], RequestId(mid0, i)).value);
    assert IsSample(mid0, warmup, inboxes, s);
  }

  /** A datagram that answers request `j` of this call. */
  predicate Answers(data: bytes, mid0: nat, j: nat) {
    Carries(data, RequestId(mid0, j))
  }

  /**
   * Credit is due for every request count exactly up to the number of message
   * ids: with at most 65536 requests, a reply credited to request `i` among
   * replies to requests of this call answers request `i` itself; with one more
   * request, a late reply to the first is taken for a reply to the last.
   */
  lemma CreditIsDue(mid0: nat, total: nat)
    ensures (forall i: nat, j: nat, data: bytes ::
               j <= i < total && Answers(data, mid0, j) && Carries(data, RequestId(mid0, i)) ==> j == i)
            <==> total <= 0x1_0000
  {
    if total <= 0x1_0000 {
      forall i: nat, j: nat, data: bytes | j <= i < total && Answers(data, mid0, j) && Carries(data, RequestId(mid0, i))
        ensures j == i
      {
        IdsDistinct(mid0 + 1 + j, i - j);
      }
    } else {
      var mid := RequestId(mid0, 0);
      var data: bytes := [0, 0, mid / 256, mid % 256];
      assert RequestId(mid0, 0x1_0000) == mid by { IdsWrap(mid0 + 1); }
      assert Answers(data, mid0, 0) && Carries(data, RequestId(mid0, 0x1_0000));
    }
  }

  lemma IdsDistinct(a: nat, gap: nat)
    requires a % 0x1_0000 == (a + gap) % 0x1_0000 && gap < 0x1_0000
    ensures gap == 0
  {
  }

  lemma IdsWrap(a: nat)
    ensures (a + 0x1_0000) % 0x1_0000 == a % 0x1_0000
  {
  }

  /** `origins` says to which request of this call each datagram replies; replies do not precede their requests. */
  ghost predicate OnlyReplies(mid0: nat, inboxes: seq<seq<bytes>>, origins: seq<seq<nat>>) {
    && |origins| == |inboxes|
    && (forall i :: 0 <= i < |inboxes| ==> |origins[i]| == |inboxes[i]|)
    && forall i, k :: 0 <= i < |inboxes| && 0 <= k < |inboxes[i]| ==>
         origins[i][k] <= i && Answers(inboxes[i][k], mid0, origins[i][k])
  }

  /** Then every sample of the loop is a reply to its own request. */
  lemma {:induction false} SamplesAreOwn(mid0: nat, warmup: nat, inboxes: seq<seq<bytes>>,
                                         origins: seq<seq<nat>>, n: nat, s: Sample)
    requires n <= |inboxes| <= 0x1_0000 && OnlyReplies(mid0, inboxes, origins)
    requires s in Samples(mid0, warmup, inboxes, n)
    ensures warmup <= s.request < n && s.datagram < |inboxes[s.request]|
    ensures origins[s.request][s.datagram] == s.request
    decreases n
  {
    var i := n - 1;
    if s in Samples(mid0, warmup, inboxes, i) {
      SamplesAreOwn(mid0, warmup, inboxes, origins, i, s);
    } else {
      CreditedIsFirst(inboxes[i], RequestId(mid0, i));
      var j := origins[i][s.datagram];
      IdsDistinct(mid0 + 1 + j, i - j);
    }
  }
}

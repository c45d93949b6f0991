/** The server's mutable state: the two client maps, updated in place by the
    handler that runs once per received datagram. */
module Server {
  import opened Catalog
  import opened RateLimiter

  class Server {
    /** Last activity time per client. */
    var activeClients: map<EndPoint, Time>
    /** Request count per client. */
    var clientRequests: map<EndPoint, int>

    /** The two maps as a value of the specification's state type. */
    function Snapshot(): (s: State)
      reads this
    {
      State(activeClients, clientRequests)
    }

    ghost predicate Valid()
      reads this
    {
      WellFormed(Snapshot())
    }

    constructor ()
      ensures Valid()
      ensures Snapshot() == Empty
    {
      activeClients := map[];
      clientRequests := map[];
    }

    /** The body of the receive loop for one datagram from `client` whose
        text is `request`. `touchedAt` is the clock reading stored as the
        activity time, `checkedAt` the later reading compared against it.
        Returns the reply to send back. */
    method HandleRequest(client: EndPoint, request: string, touchedAt: Time, checkedAt: Time)
      returns (reply: string)
      requires Valid()
      modifies this
      ensures Valid()
      ensures activeClients == old(activeClients)[client := touchedAt]
      ensures Snapshot() == Step(old(Snapshot()), Request(client, request, touchedAt, checkedAt)).state
      ensures reply == Step(old(Snapshot()), Request(client, request, touchedAt, checkedAt)).reply
    {
      ghost var q := Request(client, request, touchedAt, checkedAt);
      StepKeepsWellFormed(Snapshot(), q);
      activeClients := activeClients[client := touchedAt];
      if client in clientRequests {
        var requestCount := clientRequests[client];
        if checkedAt - activeClients[client] > RequestLimitPeriod {
          clientRequests := clientRequests[client := 0];
        } else if requestCount >= MaxRequestsPerHour {
          reply := LimitExceeded;
          return;
        }
      } else {
        clientRequests := clientRequests[client := 0];
      }
      reply := GetPrice(request);
      clientRequests := clientRequests[client := clientRequests[client] + 1];
    }

    /** The receive loop over a finite run of datagrams: handles each in order
        and collects the replies. */
    method Serve(qs: seq<Request>) returns (replies: seq<string>)
      requires Valid()
      modifies this
      ensures Valid()
      ensures Snapshot() == Replay(old(Snapshot()), qs).state
      ensures replies == Replay(old(Snapshot()), qs).replies
    {
      ghost var start := Snapshot();
      replies := [];
      var i := 0;
      while i < |qs|
        invariant 0 <= i <= |qs|
        invariant Valid()
        invariant Snapshot() == Replay(start, qs[..i]).state
        invariant replies == Replay(start, qs[..i]).replies
      {
        var q := qs[i];
        var reply := HandleRequest(q.client, q.payload, q.touchedAt, q.checkedAt);
        assert qs[..i + 1][..i] == qs[..i];
        replies := replies + [reply];
        i := i + 1;
      }
      assert qs[..i] == qs;
    }
  }
}

/** The destination of a dump, with its own record of what it was offered and what it took. */
module Destinations {
  import opened Config
  import opened Dump

  class Destination {
    const replies: seq<Status>    // its answers, one a chunk; then it accepts everything
    var calls: nat
    var received: seq<byte>
    ghost var offers: seq<seq<byte>>

    ghost predicate Valid()
      reads this
    {
      calls == |offers| && received == AcceptedOf(offers, replies)
    }

    constructor (replies: seq<Status>)
      ensures Valid() && this.replies == replies && received == [] && offers == []
    {
      this.replies := replies;
      calls, received, offers := 0, [], [];
    }

    /** A chunk is offered; it is taken exactly when the answer is OK. */
    method Offer(chunk: seq<byte>) returns (status: Status)
      requires Valid()
      modifies this
      ensures Valid() && offers == old(offers) + [chunk] && status == Answer(replies, old(calls))
      ensures received == old(received) + if status == Ok then chunk else []
    {
      status := Answer(replies, calls);
      if status == Ok {
        received := received + chunk;
      }
      calls, offers := calls + 1, offers + [chunk];
      assert offers[..|offers| - 1] == old(offers);
    }
  }
}

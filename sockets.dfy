/**
  The TCP socket the client talks through, as a scripted peer. A `Peer` says
  whether `connect` reaches it and which segments of bytes it delivers before
  closing the stream (the client always asks for `Connection: close`). A
  `recv(n)` hands out at most `n` bytes of the next non-empty segment and
  returns the empty string once everything has been read. The ghost `trace`
  records every call made on the socket, in order.
*/
module Sockets {
  import opened Utf8

  datatype Peer = Peer(reachable: bool, reply: seq<seq<byte>>)

  datatype Status = Unconnected | Connected | Closed

  datatype Event =
    | ConnectCall(host: string, port: int)
    | SendCall(data: seq<byte>)
    | RecvCall(part: seq<byte>)
    | CloseCall

  /** All the bytes of a sequence of segments, in order. */
  function Flatten(segments: seq<seq<byte>>): seq<byte>
  {
    if segments == [] then [] else segments[0] + Flatten(segments[1..])
  }

  lemma {:induction false} FlattenAppend(a: seq<seq<byte>>, b: seq<seq<byte>>)
    ensures Flatten(a + b) == Flatten(a) + Flatten(b)
  {
    if a == [] {
      assert a + b == b;
    } else {
      assert (a + b)[1..] == a[1..] + b;
      FlattenAppend(a[1..], b);
    }
  }

  lemma FlattenSnoc(segments: seq<seq<byte>>, last: seq<byte>)
    ensures Flatten(segments + [last]) == Flatten(segments) + last
  {
    FlattenAppend(segments, [last]);
    var one := [last];
    assert one[1..] == [];
  }

  /**
    One `recv(bufsize)`: the part handed out and the segments still to come.
    The part is empty exactly when no byte is left; otherwise it holds at most
    `bufsize` bytes, and it and what is left make up the stream as it was.
  */
  function RecvStep(incoming: seq<seq<byte>>, bufsize: nat): (r: (seq<byte>, seq<seq<byte>>))
    requires bufsize > 0
    ensures r.0 == [] <==> Flatten(incoming) == []
    ensures |r.0| <= bufsize
    ensures r.0 + Flatten(r.1) == Flatten(incoming)
    decreases |incoming|
  {
    if incoming == [] then ([], [])
    else if incoming[0] == [] then RecvStep(incoming[1..], bufsize)
    else if |incoming[0]| <= bufsize then (incoming[0], incoming[1..])
    else
      var head, tail := incoming[0][..bufsize], incoming[0][bufsize..];
      assert Flatten([tail] + incoming[1..]) == tail + Flatten(incoming[1..]) by {
        assert ([tail] + incoming[1..])[1..] == incoming[1..];
      }
      assert incoming[0] == head + tail;
      (head, [tail] + incoming[1..])
  }

  /**
    The parts successive `recv(bufsize)` calls return, up to and including
    the first empty one.
  */
  function Reads(incoming: seq<seq<byte>>, bufsize: nat): (parts: seq<seq<byte>>)
    requires bufsize > 0
    ensures |parts| >= 1 && parts[|parts| - 1] == []
    ensures Flatten(parts) == Flatten(incoming)
    decreases |Flatten(incoming)|
  {
    var (part, rest) := RecvStep(incoming, bufsize);
    if part == [] then
      var last: seq<seq<byte>> := [[]];
      assert Flatten(last) == [] by {
        assert last[1..] == [];
      }
      last
    else
      var more := Reads(rest, bufsize);
      assert ([part] + more)[1..] == more;
      [part] + more
  }

  /** Read `k`, when it is not the last, empty one, holds between 1 and `bufsize` bytes. */
  lemma {:induction false} ReadsBounded(incoming: seq<seq<byte>>, bufsize: nat, k: nat)
    requires bufsize > 0 && k < |Reads(incoming, bufsize)| - 1
    ensures 0 < |Reads(incoming, bufsize)[k]| <= bufsize
    decreases |Flatten(incoming)|
  {
    var (part, rest) := RecvStep(incoming, bufsize);
    ReadsStep(incoming, bufsize);
    if k > 0 {
      ReadsBounded(rest, bufsize, k - 1);
    }
  }

  /** The first read, then the reads of what it leaves. */
  lemma ReadsStep(incoming: seq<seq<byte>>, bufsize: nat)
    requires bufsize > 0
    ensures var (part, rest) := RecvStep(incoming, bufsize);
      Reads(incoming, bufsize) == [part] + (if part == [] then [] else Reads(rest, bufsize))
  {
  }

  /**
    One more `recv` in a reading loop: if the parts read so far and the reads
    of what is left make up all the reads, then after the next part this still
    holds, or, when that part is empty, the parts read are all of them and the
    stream is exhausted.
  */
  lemma ReadAdvance(all: seq<seq<byte>>, taken: seq<seq<byte>>, before: seq<seq<byte>>,
                    part: seq<byte>, after: seq<seq<byte>>, bufsize: nat)
    requires bufsize > 0
    requires (part, after) == RecvStep(before, bufsize)
    requires taken + Reads(before, bufsize) == Reads(all, bufsize)
    ensures part != [] ==> (taken + [part]) + Reads(after, bufsize) == Reads(all, bufsize)
    ensures part == [] ==> taken + [part] == Reads(all, bufsize) && Flatten(after) == []
    ensures Flatten(taken + [part]) == Flatten(taken) + part
  {
    ReadsStep(before, bufsize);
    FlattenSnoc(taken, part);
    if part != [] {
      Associative(taken, [part], Reads(after, bufsize));
    }
  }

  lemma Associative<T>(a: seq<T>, b: seq<T>, c: seq<T>)
    ensures a + b + c == a + (b + c)
  {
  }

  lemma RecvEventsSnoc(parts: seq<seq<byte>>, last: seq<byte>)
    ensures RecvEvents(parts + [last]) == RecvEvents(parts) + [RecvCall(last)]
  {
    RecvEventsAppend(parts, [last]);
    var one := [last];
    assert one[1..] == [];
  }

  /** A trace that gains one `recv` call gains that call's entry. */
  lemma TraceSnoc(start: seq<Event>, parts: seq<seq<byte>>, last: seq<byte>)
    ensures start + RecvEvents(parts + [last]) == (start + RecvEvents(parts)) + [RecvCall(last)]
  {
    RecvEventsSnoc(parts, last);
    Associative(start, RecvEvents(parts), [RecvCall(last)]);
  }

  /**
    A segment no longer than the buffer is read whole, and then the empty
    read ends the stream; a longer one is read as its first `bufsize` bytes
    and then the remainder.
  */
  lemma ReadsOfSegment(segment: seq<byte>, bufsize: nat)
    requires bufsize > 0 && 0 < |segment|
    ensures |segment| <= bufsize ==> Reads([segment], bufsize) == [segment, []]
    ensures bufsize < |segment| <= 2 * bufsize ==>
      Reads([segment], bufsize) == [segment[..bufsize], segment[bufsize..], []]
  {
    var one := [segment];
    assert one[1..] == [];
    var empty: seq<seq<byte>> := [];
    assert Reads(empty, bufsize) == [[]];
    if bufsize < |segment| <= 2 * bufsize {
      var tail := [segment[bufsize..]];
      assert tail[1..] == [];
      assert RecvStep(tail, bufsize) == (segment[bufsize..], []) by {
        assert tail[0] == segment[bufsize..];
      }
      assert ([segment[bufsize..]] + one[1..]) == tail;
    }
  }

  /** The trace entries of a sequence of `recv` calls. */
  function RecvEvents(parts: seq<seq<byte>>): (events: seq<Event>)
    ensures |events| == |parts|
    ensures forall k :: 0 <= k < |parts| ==> events[k] == RecvCall(parts[k])
  {
    if parts == [] then [] else [RecvCall(parts[0])] + RecvEvents(parts[1..])
  }

  lemma {:induction false} RecvEventsAppend(a: seq<seq<byte>>, b: seq<seq<byte>>)
    ensures RecvEvents(a + b) == RecvEvents(a) + RecvEvents(b)
  {
    if a == [] {
      assert a + b == b;
    } else {
      assert (a + b)[1..] == a[1..] + b;
      RecvEventsAppend(a[1..], b);
    }
  }

  class Socket {
    const reachable: bool
    /** The segments the peer has still to deliver. */
    var incoming: seq<seq<byte>>
    /** Every byte handed to `sendall`, in order. */
    var sent: seq<byte>
    var status: Status
    ghost var trace: seq<Event>

    /** `socket.socket(AF_INET, SOCK_STREAM)`, facing `peer`. */
    constructor (peer: Peer)
      ensures reachable == peer.reachable && incoming == peer.reply
      ensures sent == [] && status == Unconnected && trace == []
    {
      reachable := peer.reachable;
      incoming := peer.reply;
      sent := [];
      status := Unconnected;
      trace := [];
    }

    /** `connect((host, port))`; `ok` is false where Python raises. */
    method Connect(host: string, port: int) returns (ok: bool)
      requires status == Unconnected
      modifies this
      ensures ok == reachable
      ensures status == (if ok then Connected else Unconnected)
      ensures incoming == old(incoming) && sent == old(sent)
      ensures trace == old(trace) + [ConnectCall(host, port)]
    {
      ok := reachable;
      if ok {
        status := Connected;
      }
      trace := trace + [ConnectCall(host, port)];
    }

    /** `sendall(data)`: every byte goes out, in order. */
    method SendAll(data: seq<byte>)
      requires status == Connected
      modifies this
      ensures sent == old(sent) + data
      ensures incoming == old(incoming) && status == old(status)
      ensures trace == old(trace) + [SendCall(data)]
    {
      sent := sent + data;
      trace := trace + [SendCall(data)];
    }

    /** `recv(bufsize)`. */
    method Recv(bufsize: nat) returns (part: seq<byte>)
      requires status == Connected && bufsize > 0
      modifies this
      ensures (part, incoming) == RecvStep(old(incoming), bufsize)
      ensures sent == old(sent) && status == old(status)
      ensures trace == old(trace) + [RecvCall(part)]
    {
      var step := RecvStep(incoming, bufsize);
      part := step.0;
      incoming := step.1;
      trace := trace + [RecvCall(part)];
    }

    /** `close()`. */
    method Close()
      modifies this
      ensures status == Closed
      ensures incoming == old(incoming) && sent == old(sent)
      ensures trace == old(trace) + [CloseCall]
    {
      status := Closed;
      trace := trace + [CloseCall];
    }
  }
}

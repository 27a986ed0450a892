/**
 The forwarding relays `UtToGatewayHandler` and `GwToUserHandler` of
 sat-cbr-example.cc. Both run the same drain loop: for every packet the
 socket holds, open a fresh socket on the relay's own node, connect it to the
 fixed next hop on the relay's port, and send the packet unchanged. The two
 classes differ only in their configuration, so one `Relay` value models both.

 A receive becomes "the next payload of the input sequence" and a send
 becomes "append to the output sequence".
 */
module Forwarding {
  import opened Bytes

  /** A UDP port, `uint16_t` in the program. */
  type Port = p: int | 0 <= p < 0x1_0000

  /** A relay bound on `node` that forwards to `nextHop` on `port`. */
  datatype Relay<Node> = Relay(node: Node, nextHop: Node, port: Port)

  /** One transmission from `from` to `to` on `port`, carrying `payload`. */
  datatype Send<Node> = Send(from: Node, to: Node, port: Port, payload: seq<Byte>)

  /**
   The sends one relay makes for the packets it receives: one send per packet,
   in receive order, each to the next hop with the payload unchanged.
   */
  function Forward<Node>(relay: Relay<Node>, received: seq<seq<Byte>>): (sends: seq<Send<Node>>)
    ensures |sends| == |received|
    ensures forall i :: 0 <= i < |received| ==>
              sends[i] == Send(relay.node, relay.nextHop, relay.port, received[i])
  {
    if received == [] then []
    else [Send(relay.node, relay.nextHop, relay.port, received[0])] + Forward(relay, received[1..])
  }

  /** What the receiving end of `sends` gets: the payloads, in order. */
  function Payloads<Node>(sends: seq<Send<Node>>): (ps: seq<seq<Byte>>)
    ensures |ps| == |sends|
    ensures forall i :: 0 <= i < |sends| ==> ps[i] == sends[i].payload
  {
    if sends == [] then [] else [sends[0].payload] + Payloads(sends[1..])
  }

  /** A relay is transparent: its next hop receives exactly what it received. */
  lemma PayloadsOfForward<Node>(relay: Relay<Node>, received: seq<seq<Byte>>)
    ensures Payloads(Forward(relay, received)) == received
  {
  }

  /** Packets split across two callbacks are forwarded as if drained in one. */
  lemma ForwardSplit<Node>(relay: Relay<Node>, a: seq<seq<Byte>>, b: seq<seq<Byte>>)
    ensures Forward(relay, a + b) == Forward(relay, a) + Forward(relay, b)
  {
  }

  /** `HandlePacket`: one receive callback, draining every packet the socket holds. */
  method HandlePacket<Node>(relay: Relay<Node>, received: seq<seq<Byte>>) returns (sends: seq<Send<Node>>)
    ensures sends == Forward(relay, received)
    ensures |sends| == |received|
    ensures received == [] ==> sends == []
  {
    sends := [];
    var i := 0;
    while i < |received|
      invariant 0 <= i <= |received|
      invariant sends == Forward(relay, received[..i])
    {
      assert received[..i + 1] == received[..i] + [received[i]];
      ForwardSplit(relay, received[..i], [received[i]]);
      sends := sends + [Send(relay.node, relay.nextHop, relay.port, received[i])];
      i := i + 1;
    }
    assert received[..i] == received;
  }
}

/**
 The "full" scenario of sat-cbr-example.cc wired end to end: the sending user
 behind the UT sends the message once to the UT; the UT relay forwards to the
 gateway user; the gateway relay forwards to the receiving user, a second user behind
 the same UT; the receiving user's sink reassembles into the output file. Every
 hop uses port 9. Delivery between two bound sockets is taken as reliable and
 in order; how the satellite network carries the bytes is not modelled.
 The three handler objects are taken to stay alive for the whole run.
 */
module Pipeline {
  import opened Bytes
  import opened Forwarding
  import Sink
  import Startup

  /** The four endpoints of the full scenario. */
  datatype Node = SendingUser | Ut | GwUser | ReceivingUser

  /** The port every socket of the full scenario binds or connects to. */
  const AppPort: Port := 9

  /** `UtToGatewayHandler`: bound on the UT, forwarding to the gateway user. */
  const UtToGateway: Relay<Node> := Relay(Ut, GwUser, AppPort)

  /** `GwToUserHandler`: bound on the gateway user, forwarding to the receiving user. */
  const GwToUser: Relay<Node> := Relay(GwUser, ReceivingUser, AppPort)

  /** The scheduled one-shot send: the whole message, once, from the sending user to the UT. */
  function SourceSend(message: seq<Byte>): seq<Send<Node>> {
    [Send(SendingUser, Ut, AppPort, message)]
  }

  /** What the receiving user's sink gets for the packets that reach the UT. */
  function Chain(atUt: seq<seq<Byte>>): seq<seq<Byte>> {
    Payloads(Forward(GwToUser, Payloads(Forward(UtToGateway, atUt))))
  }

  /** The UT relay sends each packet it receives once, unchanged, in order, to the gateway user. */
  lemma UtToGatewayForwardsEach(received: seq<seq<Byte>>)
    ensures |Forward(UtToGateway, received)| == |received|
    ensures forall i :: 0 <= i < |received| ==>
              Forward(UtToGateway, received)[i] == Send(Ut, GwUser, 9, received[i])
  {
  }

  /** The gateway relay sends each packet it receives once, unchanged, in order, to the receiving user. */
  lemma GwToUserForwardsEach(received: seq<seq<Byte>>)
    ensures |Forward(GwToUser, received)| == |received|
    ensures forall i :: 0 <= i < |received| ==>
              Forward(GwToUser, received)[i] == Send(GwUser, ReceivingUser, 9, received[i])
  {
  }

  /** The two relays in a row neither drop, alter, reorder nor duplicate a packet. */
  lemma ChainIsTransparent(atUt: seq<seq<Byte>>)
    ensures Chain(atUt) == atUt
  {
    PayloadsOfForward(UtToGateway, atUt);
    PayloadsOfForward(GwToUser, atUt);
  }

  /**
   End to end: whatever packets reach the UT, and whatever their boundaries,
   if every flush write succeeds the output file followed by the sink's
   buffer is the file's earlier content followed by those packets' bytes in
   order.
   */
  lemma {:induction false} EndToEndNoLoss(prior: seq<Byte>, atUt: seq<seq<Byte>>, oks: seq<bool>)
    requires |oks| == |atUt| && Sink.Fits(atUt) && Sink.AllWritten(oks)
    ensures Sink.Fits(Chain(atUt))
    ensures Sink.Run(Sink.Init(prior), Chain(atUt), oks).log
          + Sink.Run(Sink.Init(prior), Chain(atUt), oks).buffer
         == prior + Flatten(atUt)
  {
    ChainIsTransparent(atUt);
    Sink.NoLossWhenWritesSucceed(Sink.Init(prior), atUt, oks);
    assert Sink.Init(prior).buffer == [];
    assert prior + [] == prior;
  }

  /**
   The run `main` starts: the message it schedules passes both relays and
   reaches the sink as one datagram. When it holds at least 3072 bytes (and
   fits the sink's copy buffer), a successful write puts all of it in the file
   and leaves the buffer empty; when it is shorter, it stays in the buffer and
   never reaches the file.
   */
  lemma ScheduledMessageReachesFile(arg: Startup.Option<string>, file: Startup.Option<seq<Byte>>, prior: seq<Byte>)
    requires Startup.Scheduled(Startup.Start(arg, file)).Some?
    requires |file.value| <= Sink.MaxDatagram
    ensures Chain(Payloads(SourceSend(file.value))) == [file.value]
    ensures Sink.Fits([file.value])
    ensures |file.value| >= Sink.Threshold ==>
              Sink.Run(Sink.Init(prior), [file.value], [true]) == Sink.State([], prior + file.value, |file.value|)
    ensures |file.value| < Sink.Threshold ==>
              Sink.Run(Sink.Init(prior), [file.value], [true]) == Sink.State(file.value, prior, |file.value|)
  {
    var m := file.value;
    ChainIsTransparent([m]);
    assert [m][1..] == [] && [true][1..] == [];
    assert Sink.Init(prior).buffer + m == m;
  }

  /**
   A 4096-byte message delivered in one datagram is written whole by one
   flush; delivered as 3072 then 1024 bytes, the first flush writes 3072 bytes
   and the last 1024 stay in the buffer, unflushed at the end of the run.
   */
  lemma FourKiBMessage(prior: seq<Byte>, a: seq<Byte>, b: seq<Byte>)
    requires |a| == 3072 && |b| == 1024
    ensures Sink.Flushes(Sink.Init(prior), [a + b], [true]) == [Sink.Flush(a + b, true)]
    ensures Sink.Run(Sink.Init(prior), [a + b], [true]) == Sink.State([], prior + (a + b), 4096)
    ensures Sink.Flushes(Sink.Init(prior), [a, b], [true, true]) == [Sink.Flush(a, true)]
    ensures Sink.Run(Sink.Init(prior), [a, b], [true, true]) == Sink.State(b, prior + a, 4096)
  {
    var s := Sink.Init(prior);
    assert s == Sink.State([], prior, 0);
    assert Sink.Run(s, [a + b], [true]) == Sink.Step(s, a + b, true)
        && Sink.Flushes(s, [a + b], [true]) == Sink.StepFlushes(s, a + b, true) + [] by {
      assert [a + b][1..] == [] && [true][1..] == [];
    }
    assert s.buffer + (a + b) == a + b;
    var s1 := Sink.Step(s, a, true);
    assert s1 == Sink.State([], prior + a, 3072) by {
      assert s.buffer + a == a;
    }
    var s2 := Sink.Step(s1, b, true);
    assert s2 == Sink.State(b, prior + a, 4096) by {
      assert s1.buffer + b == b;
    }
    assert Sink.Run(s1, [b], [true]) == s2 && Sink.Flushes(s1, [b], [true]) == [] by {
      assert [b][1..] == [] && [true][1..] == [];
      assert Sink.StepFlushes(s1, b, true) == [];
    }
    assert Sink.Run(s, [a, b], [true, true]) == Sink.Run(s1, [b], [true])
        && Sink.Flushes(s, [a, b], [true, true]) == Sink.StepFlushes(s, a, true) + [] by {
      assert [a, b][1..] == [b] && [true, true][1..] == [true];
    }
    assert Sink.StepFlushes(s, a, true) == [Sink.Flush(a, true)];
  }
}

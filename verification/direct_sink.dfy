/**
 The per-packet sink `ReceivePacket` of sat-cbr-example.cc. It is defined
 but never registered as a callback: it appends each packet straight to the
 output file, without buffering, and skips a packet whose open fails.
 */
module DirectSink {
  import opened Bytes
  import Sink

  /** Size of the stack array each packet is copied into. */
  const MaxPacket: nat := 1024

  /** Every packet fits the 1024-byte copy buffer. */
  predicate FitsPacket(ps: seq<seq<Byte>>) {
    forall i :: 0 <= i < |ps| ==> |ps[i]| <= MaxPacket
  }

  /** The packets whose open succeeds, in arrival order. */
  function Kept(ps: seq<seq<Byte>>, oks: seq<bool>): seq<seq<Byte>>
    requires |oks| == |ps|
    decreases |ps|
  {
    if ps == [] then []
    else if oks[0] then [ps[0]] + Kept(ps[1..], oks[1..])
    else Kept(ps[1..], oks[1..])
  }

  /**
   The output file after handling `ps`: each packet is one append-mode write,
   whose open succeeds as `oks` says. The file gains exactly the packets whose
   open succeeded, whole and in order; a failed open skips just its packet.
   */
  function ReceivePacket(log: seq<Byte>, ps: seq<seq<Byte>>, oks: seq<bool>): (file: seq<Byte>)
    requires |oks| == |ps| && FitsPacket(ps)
    ensures file == log + Flatten(Kept(ps, oks))
    decreases |ps|
  {
    if ps == [] then log
    else
      var next := Sink.WriteToFile(log, ps[0], oks[0]);
      var rest := Flatten(Kept(ps[1..], oks[1..]));
      KeptCons(ps, oks);
      Sink.Rejoin(log, Flatten(Kept(ps, oks)), next[|log|..], rest, next);
      ReceivePacket(next, ps[1..], oks[1..])
  }

  /** Unfolding `Kept` once, at the level of bytes. */
  lemma KeptCons(ps: seq<seq<Byte>>, oks: seq<bool>)
    requires |oks| == |ps| && ps != []
    ensures Flatten(Kept(ps, oks))
         == (if oks[0] then ps[0] else []) + Flatten(Kept(ps[1..], oks[1..]))
  {
    if !oks[0] {
      assert [] + Flatten(Kept(ps[1..], oks[1..])) == Flatten(Kept(ps[1..], oks[1..]));
    }
  }

  /** With every open succeeding, every packet is kept. */
  lemma {:induction false} KeptAllWritten(ps: seq<seq<Byte>>, oks: seq<bool>)
    requires |oks| == |ps| && Sink.AllWritten(oks)
    ensures Kept(ps, oks) == ps
    decreases |ps|
  {
    if ps != [] {
      assert Sink.AllWritten(oks[1..]) by {
        forall i | 0 <= i < |oks[1..]| ensures oks[1..][i] {
          assert oks[1..][i] == oks[i + 1];
        }
      }
      KeptAllWritten(ps[1..], oks[1..]);
      assert ps == [ps[0]] + ps[1..];
    }
  }

  /** With every open succeeding, every packet is appended, in order. */
  lemma {:induction false} ReceivePacketAllWritten(log: seq<Byte>, ps: seq<seq<Byte>>, oks: seq<bool>)
    requires |oks| == |ps| && FitsPacket(ps) && Sink.AllWritten(oks)
    ensures ReceivePacket(log, ps, oks) == log + Flatten(ps)
  {
    KeptAllWritten(ps, oks);
  }

  /** What was already in the file plays no part in what the packets add to it. */
  lemma {:induction false} ReceivePacketAppends(log: seq<Byte>, ps: seq<seq<Byte>>, oks: seq<bool>)
    requires |oks| == |ps| && FitsPacket(ps)
    ensures ReceivePacket(log, ps, oks) == log + ReceivePacket([], ps, oks)
    decreases |ps|
  {
    if ps == [] {
      assert log + [] == log;
    } else {
      var ps1, oks1 := ps[1..], oks[1..];
      var next := Sink.WriteToFile(log, ps[0], oks[0]);
      var first := Sink.WriteToFile([], ps[0], oks[0]);
      var tail := ReceivePacket([], ps1, oks1);
      assert ReceivePacket(log, ps, oks) == next + tail by {
        assert ReceivePacket(log, ps, oks) == ReceivePacket(next, ps1, oks1);
        ReceivePacketAppends(next, ps1, oks1);
      }
      assert ReceivePacket([], ps, oks) == first + tail by {
        assert ReceivePacket([], ps, oks) == ReceivePacket(first, ps1, oks1);
        ReceivePacketAppends(first, ps1, oks1);
      }
      assert next == log + first;
      Sink.Rejoin(log, first + tail, first, tail, next);
    }
  }

  /**
   Whatever the open outcomes, the file is a subsequence of its earlier
   content followed by all packets.
   */
  lemma {:induction false} ReceivePacketSubsequence(log: seq<Byte>, ps: seq<seq<Byte>>, oks: seq<bool>)
    requires |oks| == |ps| && FitsPacket(ps)
    ensures IsSubsequence(ReceivePacket(log, ps, oks), log + Flatten(ps))
    decreases |ps|
  {
    var fromEmpty := ReceivePacket([], ps, oks);
    assert IsSubsequence(fromEmpty, Flatten(ps)) by {
      if ps == [] {
        assert fromEmpty == [] && Flatten(ps) == [];
        SubsequenceReflexive([]);
      } else {
        var first := Sink.WriteToFile([], ps[0], oks[0]);
        var rest := ReceivePacket([], ps[1..], oks[1..]);
        var flat := Flatten(ps[1..]);
        assert fromEmpty == first + rest by {
          assert fromEmpty == ReceivePacket(first, ps[1..], oks[1..]);
          ReceivePacketAppends(first, ps[1..], oks[1..]);
        }
        assert Flatten(ps) == ps[0] + flat;
        ReceivePacketSubsequence([], ps[1..], oks[1..]);
        assert IsSubsequence(rest, flat) by {
          assert [] + flat == flat;
        }
        if oks[0] {
          assert first == ps[0];
          SubsequencePrependBoth(ps[0], rest, flat);
        } else {
          assert first + rest == rest;
          SubsequencePrependRight(ps[0], rest, flat);
        }
      }
    }
    ReceivePacketAppends(log, ps, oks);
    SubsequencePrependBoth(log, fromEmpty, Flatten(ps));
  }

  /**
   With every write succeeding, the unbuffered sink leaves in the file what the
   buffered sink leaves in its file and buffer together: the two differ only in
   when bytes reach the file, not in which bytes or in what order.
   */
  lemma {:induction false} AgreesWithBufferedSink(prior: seq<Byte>, ps: seq<seq<Byte>>, oks: seq<bool>)
    requires |oks| == |ps| && FitsPacket(ps) && Sink.AllWritten(oks)
    ensures Sink.Fits(ps)
    ensures ReceivePacket(prior, ps, oks)
         == Sink.Run(Sink.Init(prior), ps, oks).log + Sink.Run(Sink.Init(prior), ps, oks).buffer
  {
    assert Sink.Fits(ps) by {
      assert MaxPacket <= Sink.MaxDatagram;
    }
    Sink.NoLossWhenWritesSucceed(Sink.Init(prior), ps, oks);
    ReceivePacketAllWritten(prior, ps, oks);
    assert Sink.Init(prior).buffer == [];
    assert prior + [] == prior;
  }
}

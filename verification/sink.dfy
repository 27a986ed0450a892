/**
 The reassembly sink `UserReceiveHandler` of sat-cbr-example.cc.

 Its state has three parts: the byte buffer shared by every callback (a
 function-local `static` vector, so there is one logical buffer), the
 append-only output file, and the running counter `total_received_size`.
 Each datagram is appended to the buffer; once the buffer holds at least
 `Threshold` bytes the whole buffer is handed to one append-mode write and the
 buffer is cleared, whether or not the file could be opened.

 The file is modelled as the byte sequence `log`; whether the open and the
 write in a given flush succeed is an input (`writeOk`), one per datagram and consulted only
 when that datagram triggers a flush.
 */
module Sink {
  import opened Bytes

  /** Buffered byte count at which the sink flushes. */
  const Threshold: nat := 3072

  /** Size of the stack array each datagram is copied into. */
  const MaxDatagram: nat := 10000

  datatype State = State(buffer: seq<Byte>, log: seq<Byte>, total: nat)

  /** One flush attempt: the bytes handed to the write, and whether the open and the write succeeded. */
  datatype Flush = Flush(data: seq<Byte>, written: bool)

  /**
   The sink right after construction: nothing buffered, nothing counted, and
   the bytes seen so far are exactly what the output file already holds. The
   file is opened in append mode, so it may keep `prior` bytes of earlier runs.
   */
  function Init(prior: seq<Byte>): (s: State)
    ensures |s.buffer| == 0 && s.total == 0
    ensures s.log + s.buffer == prior
  {
    State([], prior, 0)
  }

  /** Every datagram fits the 10000-byte copy buffer. */
  predicate Fits(ds: seq<seq<Byte>>) {
    forall i :: 0 <= i < |ds| ==> |ds[i]| <= MaxDatagram
  }

  /** Every flush write succeeds. */
  predicate AllWritten(oks: seq<bool>) {
    forall i :: 0 <= i < |oks| ==> oks[i]
  }

  /**
   `WriteToFile`: one append-mode write of `data`. An append never rewrites
   the file's bytes: it adds all of `data` when the open and the write
   succeed, and nothing when the open fails.
   */
  function WriteToFile(log: seq<Byte>, data: seq<Byte>, writeOk: bool): (file: seq<Byte>)
    ensures log <= file
    ensures writeOk ==> file[|log|..] == data
    ensures !writeOk ==> file == log
  {
    if writeOk then log + data else log
  }

  /** The sink handles one datagram: append, count, and flush at the threshold. */
  function Step(s: State, d: seq<Byte>, writeOk: bool): (r: State)
    requires |d| <= MaxDatagram
    ensures r.total == s.total + |d|
    ensures |r.buffer| < Threshold
  {
    var full := s.buffer + d;
    if |full| >= Threshold then
      State([], WriteToFile(s.log, full, writeOk), s.total + |d|)
    else
      State(full, s.log, s.total + |d|)
  }

  /**
   What one datagram does to buffer and file: the buffer is either cleared or
   grown by exactly the datagram; the file only grows, and only on a
   successful flush, which empties the buffer; with a successful write, file
   followed by buffer grows by exactly the datagram.
   */
  lemma StepEffect(s: State, d: seq<Byte>, writeOk: bool)
    requires |d| <= MaxDatagram
    ensures s.log <= Step(s, d, writeOk).log
    ensures Step(s, d, writeOk).buffer == [] || Step(s, d, writeOk).buffer == s.buffer + d
    ensures Step(s, d, writeOk).log != s.log ==> writeOk && Step(s, d, writeOk).buffer == []
    ensures writeOk ==> Step(s, d, writeOk).log + Step(s, d, writeOk).buffer == s.log + s.buffer + d
  {
  }

  /** The flush attempt `Step(s, d, writeOk)` makes, if any. */
  function StepFlushes(s: State, d: seq<Byte>, writeOk: bool): seq<Flush> {
    if |s.buffer + d| >= Threshold then [Flush(s.buffer + d, writeOk)] else []
  }

  /** The sink after handling `ds` in arrival order. */
  function Run(s: State, ds: seq<seq<Byte>>, oks: seq<bool>): (r: State)
    requires |oks| == |ds| && Fits(ds)
    ensures r.total == s.total + |Flatten(ds)|
    ensures |ds| > 0 || |s.buffer| < Threshold ==> |r.buffer| < Threshold
    decreases |ds|
  {
    if ds == [] then s else Run(Step(s, ds[0], oks[0]), ds[1..], oks[1..])
  }

  /** The flush attempts made while handling `ds`, in order. */
  function Flushes(s: State, ds: seq<seq<Byte>>, oks: seq<bool>): seq<Flush>
    requires |oks| == |ds| && Fits(ds)
    decreases |ds|
  {
    if ds == [] then []
    else StepFlushes(s, ds[0], oks[0]) + Flushes(Step(s, ds[0], oks[0]), ds[1..], oks[1..])
  }

  /** All bytes handed to flush attempts, in order. */
  function Batched(fl: seq<Flush>): seq<Byte> {
    if fl == [] then [] else fl[0].data + Batched(fl[1..])
  }

  /** The bytes of the flush attempts whose write succeeded, in order. */
  function Committed(fl: seq<Flush>): seq<Byte> {
    if fl == [] then []
    else (if fl[0].written then fl[0].data else []) + Committed(fl[1..])
  }

  lemma {:induction false} BatchedAppend(a: seq<Flush>, b: seq<Flush>)
    ensures Batched(a + b) == Batched(a) + Batched(b)
    decreases |a|
  {
    if a == [] {
      assert a + b == b;
    } else {
      assert (a + b)[1..] == a[1..] + b;
      BatchedAppend(a[1..], b);
    }
  }

  lemma {:induction false} CommittedAppend(a: seq<Flush>, b: seq<Flush>)
    ensures Committed(a + b) == Committed(a) + Committed(b)
    decreases |a|
  {
    if a == [] {
      assert a + b == b;
    } else {
      assert (a + b)[1..] == a[1..] + b;
      CommittedAppend(a[1..], b);
    }
  }

  /** Regrouping of two chained splits of a byte sequence. */
  lemma Regroup(a: seq<Byte>, d: seq<Byte>, h: seq<Byte>, b: seq<Byte>, f: seq<Byte>, h': seq<Byte>, t: seq<Byte>)
    requires a + d == h + b && b + f == h' + t
    ensures a + (d + f) == (h + h') + t
  {
    calc {
      a + (d + f);
      (a + d) + f;
      (h + b) + f;
      h + (b + f);
      h + (h' + t);
    }
  }

  /** One step splits what it was given into the batch it flushed and what it keeps. */
  lemma StepPartition(s: State, d: seq<Byte>, writeOk: bool)
    requires |d| <= MaxDatagram
    ensures s.buffer + d == Batched(StepFlushes(s, d, writeOk)) + Step(s, d, writeOk).buffer
    ensures Step(s, d, writeOk).log == s.log + Committed(StepFlushes(s, d, writeOk))
  {
    var fl := StepFlushes(s, d, writeOk);
    if |s.buffer + d| >= Threshold {
      assert fl[1..] == [];
      assert Batched(fl) == s.buffer + d;
    } else {
      assert s.log + Committed(fl) == s.log;
    }
  }

  /**
   The input seen so far (what was buffered before plus every datagram) is
   exactly the flushed batches followed by what is still buffered: the buffer
   is always a suffix of the input, and batches are contiguous, in order.
   */
  lemma {:induction false} InputIsBatchesThenBuffer(s: State, ds: seq<seq<Byte>>, oks: seq<bool>)
    requires |oks| == |ds| && Fits(ds)
    ensures s.buffer + Flatten(ds) == Batched(Flushes(s, ds, oks)) + Run(s, ds, oks).buffer
    decreases |ds|
  {
    if ds == [] {
      assert Flatten(ds) == [] && Flushes(s, ds, oks) == [];
    } else {
      var s1, ds1, oks1 := Step(s, ds[0], oks[0]), ds[1..], oks[1..];
      var head, rest := StepFlushes(s, ds[0], oks[0]), Flushes(s1, ds1, oks1);
      var rb, f1 := Run(s1, ds1, oks1).buffer, Flatten(ds1);
      assert Flushes(s, ds, oks) == head + rest && Run(s, ds, oks).buffer == rb && Flatten(ds) == ds[0] + f1;
      assert s1.buffer + f1 == Batched(rest) + rb by {
        InputIsBatchesThenBuffer(s1, ds1, oks1);
      }
      assert s.buffer + ds[0] == Batched(head) + s1.buffer by {
        StepPartition(s, ds[0], oks[0]);
      }
      assert Batched(head + rest) == Batched(head) + Batched(rest) by {
        BatchedAppend(head, rest);
      }
      Regroup(s.buffer, ds[0], Batched(head), s1.buffer, f1, Batched(rest), rb);
    }
  }

  /** The log grows by exactly the batches whose write succeeded, in order. */
  lemma {:induction false} LogIsCommittedBatches(s: State, ds: seq<seq<Byte>>, oks: seq<bool>)
    requires |oks| == |ds| && Fits(ds)
    ensures Run(s, ds, oks).log == s.log + Committed(Flushes(s, ds, oks))
    decreases |ds|
  {
    if ds == [] {
      assert Flushes(s, ds, oks) == [];
      assert s.log + [] == s.log;
    } else {
      var s1, ds1, oks1 := Step(s, ds[0], oks[0]), ds[1..], oks[1..];
      var head, rest := StepFlushes(s, ds[0], oks[0]), Flushes(s1, ds1, oks1);
      var ch, cr := Committed(head), Committed(rest);
      assert Flushes(s, ds, oks) == head + rest && Run(s, ds, oks) == Run(s1, ds1, oks1);
      assert Run(s1, ds1, oks1).log == s1.log + cr by {
        LogIsCommittedBatches(s1, ds1, oks1);
      }
      assert s1.log == s.log + ch by {
        StepPartition(s, ds[0], oks[0]);
      }
      assert Committed(head + rest) == ch + cr by {
        CommittedAppend(head, rest);
      }
      Rejoin(s.log, ch + cr, ch, cr, s1.log);
    }
  }

  /** The file only grows: bytes already in it are never rewritten or reordered. */
  lemma LogOnlyGrows(s: State, ds: seq<seq<Byte>>, oks: seq<bool>)
    requires |oks| == |ds| && Fits(ds)
    ensures s.log <= Run(s, ds, oks).log
  {
    LogIsCommittedBatches(s, ds, oks);
  }

  /**
   Bytes reach the file only in batches of at least `Threshold` bytes, and
   there is at most one flush attempt per datagram.
   */
  lemma {:induction false} FlushBatchesReachThreshold(s: State, ds: seq<seq<Byte>>, oks: seq<bool>)
    requires |oks| == |ds| && Fits(ds)
    ensures |Flushes(s, ds, oks)| <= |ds|
    ensures forall i :: 0 <= i < |Flushes(s, ds, oks)| ==> |Flushes(s, ds, oks)[i].data| >= Threshold
    decreases |ds|
  {
    if ds != [] {
      var head := StepFlushes(s, ds[0], oks[0]);
      var rest := Flushes(Step(s, ds[0], oks[0]), ds[1..], oks[1..]);
      FlushBatchesReachThreshold(Step(s, ds[0], oks[0]), ds[1..], oks[1..]);
      assert Flushes(s, ds, oks) == head + rest;
      assert forall i :: 0 <= i < |head| ==> |head[i].data| >= Threshold;
    }
  }

  /** With every write succeeding, every attempted batch is committed. */
  lemma {:induction false} CommittedAllWhenWritten(fl: seq<Flush>)
    requires forall i :: 0 <= i < |fl| ==> fl[i].written
    ensures Committed(fl) == Batched(fl)
    decreases |fl|
  {
    if fl != [] {
      CommittedAllWhenWritten(fl[1..]);
    }
  }

  /** Committed bytes, followed by any tail, are a subsequence of all batches followed by it. */
  lemma {:induction false} CommittedIsSubsequence(fl: seq<Flush>, tail: seq<Byte>)
    ensures IsSubsequence(Committed(fl) + tail, Batched(fl) + tail)
    decreases |fl|
  {
    if fl == [] {
      assert Committed(fl) + tail == tail && Batched(fl) + tail == tail;
      SubsequenceReflexive(tail);
    } else {
      CommittedIsSubsequence(fl[1..], tail);
      var c := Committed(fl[1..]) + tail;
      var b := Batched(fl[1..]) + tail;
      assert Batched(fl) + tail == fl[0].data + b;
      if fl[0].written {
        assert Committed(fl) + tail == fl[0].data + c;
        SubsequencePrependBoth(fl[0].data, c, b);
      } else {
        assert Committed(fl) + tail == c;
        SubsequencePrependRight(fl[0].data, c, b);
      }
    }
  }

  /** The flush attempts of `Run` are the ones it makes with every write succeeding. */
  lemma {:induction false} FlushesWritten(s: State, ds: seq<seq<Byte>>, oks: seq<bool>)
    requires |oks| == |ds| && Fits(ds) && AllWritten(oks)
    ensures forall i :: 0 <= i < |Flushes(s, ds, oks)| ==> Flushes(s, ds, oks)[i].written
    decreases |ds|
  {
    if ds != [] {
      FlushesWritten(Step(s, ds[0], oks[0]), ds[1..], oks[1..]);
    }
  }

  /**
   No loss, no reordering, no duplication: when every write succeeds, the log
   followed by the buffer is exactly what was there before followed by every
   datagram's bytes in arrival order.
   */
  lemma NoLossWhenWritesSucceed(s: State, ds: seq<seq<Byte>>, oks: seq<bool>)
    requires |oks| == |ds| && Fits(ds) && AllWritten(oks)
    ensures Run(s, ds, oks).log + Run(s, ds, oks).buffer == s.log + s.buffer + Flatten(ds)
  {
    var r := Run(s, ds, oks);
    var fl := Flushes(s, ds, oks);
    assert s.buffer + Flatten(ds) == Batched(fl) + r.buffer by {
      InputIsBatchesThenBuffer(s, ds, oks);
    }
    assert r.log == s.log + Batched(fl) by {
      LogIsCommittedBatches(s, ds, oks);
      FlushesWritten(s, ds, oks);
      CommittedAllWhenWritten(fl);
    }
    Rejoin(s.log, s.buffer + Flatten(ds), Batched(fl), r.buffer, r.log);
  }

  /** Putting a prefix back in front of a split sequence. */
  lemma Rejoin(p: seq<Byte>, x: seq<Byte>, h: seq<Byte>, t: seq<Byte>, l: seq<Byte>)
    requires x == h + t && l == p + h
    ensures l + t == p + x
  {
  }

  /**
   Whatever the write outcomes, the log followed by the buffer is a
   subsequence of what was there before followed by every datagram: bytes may
   be lost (a failed open clears the buffer) but are never reordered or
   duplicated.
   */
  lemma LogAndBufferAreSubsequence(s: State, ds: seq<seq<Byte>>, oks: seq<bool>)
    requires |oks| == |ds| && Fits(ds)
    ensures IsSubsequence(Run(s, ds, oks).log + Run(s, ds, oks).buffer, s.log + s.buffer + Flatten(ds))
  {
    var r := Run(s, ds, oks);
    var fl := Flushes(s, ds, oks);
    var c, b := Committed(fl), Batched(fl);
    var input := s.buffer + Flatten(ds);
    assert r.log + r.buffer == s.log + (c + r.buffer) by {
      LogIsCommittedBatches(s, ds, oks);
      Rejoin(s.log, c + r.buffer, c, r.buffer, r.log);
    }
    assert s.log + s.buffer + Flatten(ds) == s.log + (b + r.buffer) by {
      InputIsBatchesThenBuffer(s, ds, oks);
      Rejoin(s.log, b + r.buffer, s.buffer, Flatten(ds), s.log + s.buffer);
    }
    assert IsSubsequence(s.log + (c + r.buffer), s.log + (b + r.buffer)) by {
      CommittedIsSubsequence(fl, r.buffer);
      SubsequencePrependBoth(s.log, c + r.buffer, b + r.buffer);
    }
  }

  /**
   A failed open loses exactly the batch it was given: the log is unchanged
   and the buffer is cleared all the same.
   */
  lemma FailedWriteDropsBatch(s: State, d: seq<Byte>)
    requires |d| <= MaxDatagram && |s.buffer| + |d| >= Threshold
    ensures Step(s, d, false) == State([], s.log, s.total + |d|)
    ensures StepFlushes(s, d, false) == [Flush(s.buffer + d, false)]
  {
  }

  /**
   The buffer, and the batches handed to the writes, do not depend on whether
   the writes succeed: the clear after a flush attempt is unconditional.
   */
  lemma {:induction false} BufferIgnoresWriteOutcomes(s: State, ds: seq<seq<Byte>>, oks: seq<bool>, oks': seq<bool>)
    requires |oks| == |ds| && |oks'| == |ds| && Fits(ds)
    ensures Run(s, ds, oks).buffer == Run(s, ds, oks').buffer
    ensures Batched(Flushes(s, ds, oks)) == Batched(Flushes(s, ds, oks'))
    decreases |ds|
  {
    if ds != [] {
      var s1 := Step(s, ds[0], oks[0]);
      var s1' := Step(s, ds[0], oks'[0]);
      var t1 := State(s1.buffer, s1'.log, s1.total);
      assert s1' == t1;
      BufferIgnoresWriteOutcomes(s1, ds[1..], oks[1..], oks'[1..]);
      BufferStateIndependent(s1, s1', ds[1..], oks'[1..]);
      BatchedAppend(StepFlushes(s, ds[0], oks[0]), Flushes(s1, ds[1..], oks[1..]));
      BatchedAppend(StepFlushes(s, ds[0], oks'[0]), Flushes(s1', ds[1..], oks'[1..]));
    }
  }

  /** Only the buffer of the starting state decides the buffers and batches that follow. */
  lemma {:induction false} BufferStateIndependent(s: State, s': State, ds: seq<seq<Byte>>, oks: seq<bool>)
    requires s.buffer == s'.buffer && |oks| == |ds| && Fits(ds)
    ensures Run(s, ds, oks).buffer == Run(s', ds, oks).buffer
    ensures Flushes(s, ds, oks) == Flushes(s', ds, oks)
    decreases |ds|
  {
    if ds != [] {
      BufferStateIndependent(Step(s, ds[0], oks[0]), Step(s', ds[0], oks[0]), ds[1..], oks[1..]);
    }
  }

  lemma FitsAppend(a: seq<seq<Byte>>, b: seq<seq<Byte>>)
    requires Fits(a) && Fits(b)
    ensures Fits(a + b)
  {
    forall i | 0 <= i < |a + b|
      ensures |(a + b)[i]| <= MaxDatagram
    {
      if i < |a| {
        assert (a + b)[i] == a[i];
      } else {
        assert (a + b)[i] == b[i - |a|];
      }
    }
  }

  /** Handling `a` and then, in a later callback, `b` is handling `a + b`. */
  lemma {:induction false} RunSplit(s: State, a: seq<seq<Byte>>, oa: seq<bool>, b: seq<seq<Byte>>, ob: seq<bool>)
    requires |oa| == |a| && |ob| == |b| && Fits(a) && Fits(b)
    ensures Fits(a + b)
    ensures Run(s, a + b, oa + ob) == Run(Run(s, a, oa), b, ob)
    ensures Flushes(s, a + b, oa + ob) == Flushes(s, a, oa) + Flushes(Run(s, a, oa), b, ob)
    decreases |a|
  {
    FitsAppend(a, b);
    if a == [] {
      assert a + b == b && oa + ob == ob;
    } else {
      var s1, a1, oa1 := Step(s, a[0], oa[0]), a[1..], oa[1..];
      var head := StepFlushes(s, a[0], oa[0]);
      var mid := Run(s1, a1, oa1);
      assert (a + b)[1..] == a1 + b && (oa + ob)[1..] == oa1 + ob;
      assert (a + b)[0] == a[0] && (oa + ob)[0] == oa[0];
      var fa, fb := Flushes(s1, a1, oa1), Flushes(mid, b, ob);
      assert Run(s1, a1 + b, oa1 + ob) == Run(mid, b, ob)
          && Flushes(s1, a1 + b, oa1 + ob) == fa + fb by {
        RunSplit(s1, a1, oa1, b, ob);
      }
      assert Run(s, a, oa) == mid && Flushes(s, a, oa) == head + fa;
      assert Flushes(s, a + b, oa + ob) == head + (fa + fb);
      assert head + (fa + fb) == (head + fa) + fb by {
        FlushAssoc(head, fa, fb);
      }
    }
  }

  /** Regrouping three lists of flush attempts. */
  lemma FlushAssoc(x: seq<Flush>, y: seq<Flush>, z: seq<Flush>)
    ensures x + (y + z) == (x + y) + z
  {
  }

  /** While the buffered bytes stay below the threshold nothing is flushed. */
  lemma {:induction false} NoFlushBelowThreshold(s: State, ds: seq<seq<Byte>>, oks: seq<bool>)
    requires |oks| == |ds| && Fits(ds)
    requires |s.buffer| + |Flatten(ds)| < Threshold
    ensures Flushes(s, ds, oks) == []
    ensures Run(s, ds, oks).buffer == s.buffer + Flatten(ds)
    ensures Run(s, ds, oks).log == s.log
    decreases |ds|
  {
    if ds != [] {
      var s1, ds1, oks1 := Step(s, ds[0], oks[0]), ds[1..], oks[1..];
      var f1 := Flatten(ds1);
      assert Flatten(ds) == ds[0] + f1;
      assert s1 == State(s.buffer + ds[0], s.log, s.total + |ds[0]|);
      assert Flushes(s, ds, oks) == Flushes(s1, ds1, oks1);
      assert Run(s, ds, oks) == Run(s1, ds1, oks1);
      assert s1.buffer + f1 == s.buffer + Flatten(ds) by {
        Rejoin(s.buffer, Flatten(ds), ds[0], f1, s1.buffer);
      }
      NoFlushBelowThreshold(s1, ds1, oks1);
    }
  }

  /**
   Threshold boundary: if the buffered bytes stay below the threshold up to
   the second-to-last datagram and reach it with the last one, exactly one
   flush happens, right after the last datagram; it writes the whole buffer
   and leaves the buffer empty.
   */
  lemma {:induction false} CrossingFlushesOnce(s: State, ds: seq<seq<Byte>>, oks: seq<bool>)
    requires |oks| == |ds| && Fits(ds) && |ds| > 0
    requires |s.buffer| + |Flatten(ds[..|ds| - 1])| < Threshold <= |s.buffer| + |Flatten(ds)|
    ensures Flushes(s, ds, oks) == [Flush(s.buffer + Flatten(ds), oks[|ds| - 1])]
    ensures Run(s, ds, oks).buffer == []
    ensures Run(s, ds, oks).log == WriteToFile(s.log, s.buffer + Flatten(ds), oks[|ds| - 1])
  {
    var n := |ds| - 1;
    var pre, last, opre, olast := ds[..n], ds[n], oks[..n], oks[n];
    assert ds == pre + [last] && oks == opre + [olast];
    var m := Run(s, pre, opre);
    var whole := s.buffer + Flatten(ds);
    assert Fits(pre) && Fits([last]);
    assert Flushes(s, pre, opre) == [] && m.buffer == s.buffer + Flatten(pre) && m.log == s.log by {
      NoFlushBelowThreshold(s, pre, opre);
    }
    assert m.buffer + last == whole by {
      FlattenAppend(pre, [last]);
      assert Flatten([last]) == last;
      Rejoin(s.buffer, Flatten(ds), Flatten(pre), last, m.buffer);
    }
    assert Run(s, ds, oks) == Run(m, [last], [olast])
        && Flushes(s, ds, oks) == [] + Flushes(m, [last], [olast]) by {
      RunSplit(s, pre, opre, [last], [olast]);
    }
    assert [last][1..] == [] && [olast][1..] == [];
    assert Flushes(m, [last], [olast]) == StepFlushes(m, last, olast);
    assert Run(m, [last], [olast]) == Step(m, last, olast);
  }

  /**
   The concrete boundary case: from an empty buffer, datagrams whose total
   first reaches exactly 3072 bytes with datagram `k` cause no flush after
   any earlier datagram and one flush after `k`, writing exactly 3072 bytes.
   */
  lemma ExactThresholdFlushesOnce(prior: seq<Byte>, ds: seq<seq<Byte>>, oks: seq<bool>)
    requires |oks| == |ds| && Fits(ds) && |ds| > 0
    requires |Flatten(ds[..|ds| - 1])| < 3072 && |Flatten(ds)| == 3072
    ensures forall i :: 0 <= i < |ds| ==> Flushes(Init(prior), ds[..i], oks[..i]) == []
    ensures Flushes(Init(prior), ds, oks) == [Flush(Flatten(ds), oks[|ds| - 1])]
    ensures Run(Init(prior), ds, oks).buffer == []
    ensures oks[|ds| - 1] ==> Run(Init(prior), ds, oks).log == prior + Flatten(ds)
    ensures !oks[|ds| - 1] ==> Run(Init(prior), ds, oks).log == prior
  {
    var s := Init(prior);
    assert s.buffer + Flatten(ds) == Flatten(ds);
    CrossingFlushesOnce(s, ds, oks);
    forall i | 0 <= i < |ds|
      ensures Flushes(s, ds[..i], oks[..i]) == []
    {
      FlattenPrefix(ds, i, |ds| - 1);
      assert ds[..|ds| - 1][..i] == ds[..i];
      assert Fits(ds[..i]);
      NoFlushBelowThreshold(s, ds[..i], oks[..i]);
    }
  }

  /**
   A flush writes the entire buffer, not `Threshold` bytes: one 5000-byte
   datagram into an empty buffer appends exactly those 5000 bytes.
   */
  lemma WholeBufferIsFlushed(prior: seq<Byte>, d: seq<Byte>)
    requires |d| == 5000
    ensures Flushes(Init(prior), [d], [true]) == [Flush(d, true)]
    ensures Run(Init(prior), [d], [true]) == State([], prior + d, 5000)
  {
    assert [d][1..] == [] && [true][1..] == [];
    assert Init(prior).buffer + d == d;
    assert Flushes(Init(prior), [d], [true]) == StepFlushes(Init(prior), d, true);
  }

  /**
   `HandlePacket`: one receive callback, draining every datagram the socket
   holds. The buffer and counter carry over between callbacks (see `RunSplit`).
   */
  method HandlePacket(s: State, ds: seq<seq<Byte>>, oks: seq<bool>) returns (r: State)
    requires |oks| == |ds| && Fits(ds)
    ensures r == Run(s, ds, oks)
    ensures r.total == s.total + |Flatten(ds)|
    ensures |ds| > 0 ==> |r.buffer| < Threshold
    ensures AllWritten(oks) ==> r.log + r.buffer == s.log + s.buffer + Flatten(ds)
  {
    r := s;
    var i := 0;
    while i < |ds|
      invariant 0 <= i <= |ds|
      invariant Run(r, ds[i..], oks[i..]) == Run(s, ds, oks)
      invariant i > 0 ==> |r.buffer| < Threshold
    {
      assert ds[i..][1..] == ds[i + 1..];
      assert oks[i..][1..] == oks[i + 1..];
      r := Step(r, ds[i], oks[i]);
      i := i + 1;
    }
    if AllWritten(oks) {
      NoLossWhenWritesSucceed(s, ds, oks);
    }
  }
}

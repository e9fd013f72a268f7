/** The supervisor's writer and the worker's reader, joined by the bytes between them. */
module HandoffChannel {
  import opened Words
  import opened Binary
  import Sup = Handoff
  import Chan = FrameChannel
  import Adopt = Adoptions

  /** What goes out for a frame of the writer: `share` is the blob a connection is shared as. */
  function Encoded(f: Sup.Frame, share: nat -> bytes): Chan.Message {
    match f
    case ConnFrame(c) => Chan.With(Chan.CONN, share(c))
    case StopFrame => Chan.Bare(Chan.STOP)
  }

  /** Every blob fits a frame. */
  ghost predicate Shareable(share: nat -> bytes) {
    forall c: nat :: |share(c)| + 5 < Values(4)
  }

  lemma EncodedIsSendable(f: Sup.Frame, share: nat -> bytes)
    requires Shareable(share)
    ensures Chan.Sendable(Encoded(f, share))
  {
    Widths();
    assert f.ConnFrame? ==> |share(f.conn)| + 5 < Values(4);
  }

  ghost function AllEncoded(fs: seq<Sup.Frame>, share: nat -> bytes): (ms: seq<Chan.Message>)
    ensures |ms| == |fs| && forall i :: 0 <= i < |fs| ==> ms[i] == Encoded(fs[i], share)
    ensures Shareable(share) ==> Chan.AllSendable(ms)
  {
    assert Shareable(share) ==> forall i :: 0 <= i < |fs| ==> Chan.Sendable(Encoded(fs[i], share)) by {
      if Shareable(share) {
        forall i | 0 <= i < |fs| ensures Chan.Sendable(Encoded(fs[i], share)) {
          EncodedIsSendable(fs[i], share);
        }
      }
    }
    seq(|fs|, i requires 0 <= i < |fs| => Encoded(fs[i], share))
  }

  function Blobs(cs: seq<nat>, share: nat -> bytes): (bs: seq<bytes>)
    ensures |bs| == |cs| && forall i :: 0 <= i < |cs| ==> bs[i] == share(cs[i])
  {
    seq(|cs|, i requires 0 <= i < |cs| => share(cs[i]))
  }

  /** Connections, and then perhaps STOP. */
  predicate Orderly(fs: seq<Sup.Frame>, cs: seq<nat>) {
    fs == Sup.ConnFrames(cs) || fs == Sup.ConnFrames(cs) + [Sup.StopFrame]
  }

  /** A worker that reads such frames is handed their connections. */
  lemma {:induction false} HandsConnections(fs: seq<Sup.Frame>, cs: seq<nat>, share: nat -> bytes)
    requires Orderly(fs, cs)
    ensures Chan.HandedOver(Chan.Meanings(AllEncoded(fs, share))) == Blobs(cs, share)
    decreases |cs|
  {
    var ds := Chan.Meanings(AllEncoded(fs, share));
    if cs != [] {
      OrderlyFirst(fs, cs);
      HandsConnections(fs[1..], cs[1..], share);
      assert ds[1..] == Chan.Meanings(AllEncoded(fs[1..], share));
      assert ds[0] == Chan.Delivered(Chan.CONN, share(cs[0]));
      hide Orderly;
      assert Blobs(cs, share) == [share(cs[0])] + Blobs(cs[1..], share);
    }
  }

  lemma OrderlyFirst(fs: seq<Sup.Frame>, cs: seq<nat>)
    requires Orderly(fs, cs) && cs != []
    ensures fs != [] && fs[0] == Sup.ConnFrame(cs[0]) && Orderly(fs[1..], cs[1..])
  {
    assert Sup.ConnFrames(cs) == [Sup.ConnFrame(cs[0])] + Sup.ConnFrames(cs[1..]);
  }

  lemma OrderlyPrefix(fs: seq<Sup.Frame>, cs: seq<nat>, j: nat)
    requires Orderly(fs, cs) && j <= |fs|
    ensures Orderly(fs[..j], cs[..if j < |cs| then j else |cs|])
  {
    if j <= |cs| {
      assert fs[..j] == Sup.ConnFrames(cs[..j]);
    } else {
      assert fs[..j] == fs && cs[..|cs|] == cs;
    }
  }

  /** A frame whose sending has begun, perhaps cut short: the oldest connection not sent, or
      STOP; nothing more once STOP was sent. */
  predicate Begun(s: Sup.State, more: seq<Sup.Frame>) {
    || more == []
    || (!Sup.StopWasSent(s)
        && (more == [Sup.StopFrame]
            || (|Sup.Written(s)| < |s.accepted| && more == [Sup.ConnFrame(s.accepted[|Sup.Written(s)|])])))
  }

  /** The connection the writer holds, is sending or failed to send is such a one. */
  lemma {:induction false} BegunByWriter(log: seq<Sup.Action>)
    requires Sup.Legal(log)
    ensures var s := Sup.Exec(log);
      && (s.writer.Holding? || s.writer.Failed? ==> Begun(s, [Sup.ConnFrame(s.writer.conn)]))
      && (s.writer == Sup.SendingStop ==> Begun(s, [Sup.StopFrame]))
      && (s.unsent != [] && !Sup.StopWasSent(s) ==> Begun(s, [Sup.ConnFrame(s.unsent[0])]))
  {
    Sup.AlwaysInv(log);
    var s := Sup.Exec(log);
    assert Sup.StopFrame !in Sup.ConnFrames(Sup.Written(s));
  }

  lemma WrittenIsPrefix(s: Sup.State)
    requires Sup.Owned(s)
    ensures Sup.Written(s) <= s.accepted
  {
  }

  lemma OneMoreFrame(cs: seq<nat>, n: nat)
    requires n < |cs|
    ensures Sup.ConnFrames(cs[..n + 1]) == Sup.ConnFrames(cs[..n]) + [Sup.ConnFrame(cs[n])]
  {
  }

  /** The frames written or begun, and the connections in them. */
  lemma {:induction false} WireIsOrderly(log: seq<Sup.Action>, more: seq<Sup.Frame>) returns (n: nat)
    requires Sup.Legal(log) && Begun(Sup.Exec(log), more)
    ensures var s := Sup.Exec(log);
      && n <= |s.accepted| && Orderly(s.wire + more, s.accepted[..n])
      && (more == [] ==> s.accepted[..n] == Sup.Written(s))
  {
    Sup.AlwaysInv(log);
    hide Sup.Legal, Sup.Exec, Sup.StopAfterBacklog, Sup.NeverBlocked, Sup.Leaving;
    var s := Sup.Exec(log);
    var w := Sup.Written(s);
    WrittenIsPrefix(s);
    hide Sup.Owned, Sup.Written;
    n := |w|;
    assert s.accepted[..n] == w;
    if more == [] {
      assert s.wire + more == s.wire;
    } else if more != [Sup.StopFrame] {
      OneMoreFrame(s.accepted, n);
      n := n + 1;
    }
  }

  /** End to end: in every interleaving at the supervisor, and wherever the stream of bytes
      breaks off, even inside a frame being written, the worker is handed the connections of
      a prefix of the accepted ones, each whole, in the order they were accepted. */
  lemma {:induction false} WorkerHandedPrefix(log: seq<Sup.Action>, more: seq<Sup.Frame>, share: nat -> bytes, k: nat)
    returns (n: nat)
    requires Sup.Legal(log) && Begun(Sup.Exec(log), more) && Shareable(share)
    requires k <= |Chan.Wire(AllEncoded(Sup.Exec(log).wire + more, share))|
    ensures var s := Sup.Exec(log);
      && n <= |s.accepted|
      && Chan.HandedOver(Chan.Deliveries(Chan.Wire(AllEncoded(s.wire + more, share))[..k]))
         == Blobs(s.accepted[..n], share)
  {
    var s := Sup.Exec(log);
    var fs := s.wire + more;
    var ms := AllEncoded(fs, share);
    hide *;
    var all := WireIsOrderly(log, more);
    Chan.BrokenChannelHandsPrefix(ms, k);
    n := HandsPrefix(fs, s.accepted, all, Chan.WholeFrames(ms, k), share);
  }

  lemma HandsPrefix(fs: seq<Sup.Frame>, cs: seq<nat>, all: nat, j: nat, share: nat -> bytes) returns (n: nat)
    requires all <= |cs| && j <= |fs| && Orderly(fs, cs[..all])
    ensures n <= all && Chan.HandedOver(Chan.Meanings(AllEncoded(fs, share)[..j])) == Blobs(cs[..n], share)
  {
    n := if j < all then j else all;
    OrderlyPrefix(fs, cs[..all], j);
    assert cs[..all][..n] == cs[..n];
    hide *;
    assert AllEncoded(fs[..j], share) == AllEncoded(fs, share)[..j];
    HandsConnections(fs[..j], cs[..n], share);
  }

  /** So what a worker adopts, however its loop keeps up, it adopts in the order of acceptance;
      those and the ones it closed are a prefix of the accepted connections, each met once. */
  lemma {:induction false} WorkerAdoptsAccepted(
    log: seq<Sup.Action>, more: seq<Sup.Frame>, share: nat -> bytes, k: nat, env: nat -> Adopt.Around)
    returns (n: nat)
    requires Sup.Legal(log) && Begun(Sup.Exec(log), more) && Shareable(share)
    requires k <= |Chan.Wire(AllEncoded(Sup.Exec(log).wire + more, share))|
    ensures var s := Sup.Exec(log);
      var handed := Chan.HandedOver(Chan.Deliveries(Chan.Wire(AllEncoded(s.wire + more, share))[..k]));
      var w := Adopt.MeetAll(Adopt.Fresh(), handed, env, 0);
      && n <= |handed| && (n < |handed| ==> w.stopped)
      && n <= |s.accepted| && Adopt.HasMet(w, Blobs(s.accepted[..n], share))
  {
    var s := Sup.Exec(log);
    var m := WorkerHandedPrefix(log, more, share, k);
    hide *;
    var blobs := Blobs(s.accepted[..m], share);
    NothingMet();
    n := Adopt.Accounted(Adopt.Fresh(), [], blobs, env, 0);
    BlobsPrefix(s.accepted, m, n, share);
    assert [] + blobs[..n] == blobs[..n];
  }

  lemma NothingMet()
    ensures Adopt.HasMet(Adopt.Fresh(), [])
  {
  }

  lemma BlobsPrefix(cs: seq<nat>, m: nat, n: nat, share: nat -> bytes)
    requires m <= |cs|
    ensures |Blobs(cs[..m], share)| == m
    ensures n <= m ==> Blobs(cs[..m], share)[..n] == Blobs(cs[..n], share)
  {
  }

  /** And over an unbroken channel, all that were written: with STOP, every connection
      accepted before the first request to stop. */
  lemma {:induction false} WorkerHandedAllWritten(log: seq<Sup.Action>, share: nat -> bytes)
    requires Sup.Legal(log) && Shareable(share)
    ensures var s := Sup.Exec(log);
      var ms := AllEncoded(s.wire, share);
      && Chan.AllSendable(ms)
      && Chan.HandedOver(Chan.Deliveries(Chan.Wire(ms))) == Blobs(Sup.Written(s), share)
      && (Sup.StopFrame in s.wire ==> Sup.Written(s) == s.sent && s.stopAt <= |s.sent| && s.sent <= s.accepted)
  {
    var s := Sup.Exec(log);
    var ms := AllEncoded(s.wire, share);
    assert s.wire + [] == s.wire;
    var n := WireIsOrderly(log, []);
    HandsConnections(s.wire, Sup.Written(s), share);
    Chan.RoundTrip(ms, []);
    Chan.EndOfStream();
    assert Chan.Wire(ms) + [] == Chan.Wire(ms) && Chan.Meanings(ms) + [] == Chan.Meanings(ms);
    if Sup.StopFrame in s.wire {
      Sup.StopIsLast(log);
      Sup.AlwaysInv(log);
      assert Sup.Leaving(s.writer);
    }
  }
}

/** The two register machines together: whatever decisions go through arith_encode
    and finish_pass come out of arith_decode. */
module CoderRoundTrip {
  import opened Numbers
  import opened ProbabilityTable
  import opened IntervalCoder
  import opened ByteSource
  import Enc = EncoderRegisters
  import Dec = DecoderRegisters

  /** The logical bytes of the segment that codes `script`. */
  ghost function CodeString(tab: seq<nat>, stats: seq<byte>, script: seq<Decision>): (u: seq<byte>)
    requires ValidTable(tab) && ValidStats(tab, stats) && ValidScript(script, |stats|)
  {
    Enc.Finish(Enc.EncodeAll(tab, Enc.State(Enc.START, stats), script).e)
  }

  lemma EncodedState(tab: seq<nat>, stats: seq<byte>, script: seq<Decision>)
    requires ValidTable(tab) && ValidStats(tab, stats) && ValidScript(script, |stats|)
    ensures ValidCoder(tab, Coder(Interval(0, 0x10000, 0), stats))
    ensures Enc.Refines(tab, Enc.EncodeAll(tab, Enc.State(Enc.START, stats), script),
                        Run(tab, Coder(Interval(0, 0x10000, 0), stats), script))
  {
    hide Enc.Denotes;
    Enc.StartDenotes();
    Enc.EncodeAllRefines(tab, Enc.State(Enc.START, stats), Coder(Interval(0, 0x10000, 0), stats), script);
  }

  /** Two bytes are read before the first decision. */
  lemma StartReads(src: Source)
    ensures var d := Dec.Renorm(Dec.Start(src));
            && d.a == 0x10000 && d.ct == 0 && Dec.Valid(d)
            && forall j: nat :: Ahead(d.c, d.src, j) == Ahead(0, src, j + 2)
  {
    var d0 := Dec.Start(src);
    Dec.RenormValid(d0);
    Dec.ShiftValid(d0);
    var d1 := Dec.Shift(d0);
    Dec.ShiftValid(d1);
    var d2 := Dec.Shift(d1);
    assert Dec.Renorm(d2) == d2;
    assert Dec.Renorm(d0) == Dec.Renorm(d1) == Dec.Renorm(d2);
    forall j: nat
      ensures Ahead(d2.c, d2.src, j) == Ahead(0, src, j + 2)
    {
      assert Ahead(0, src, j + 2) == Ahead(d1.c, d1.src, j + 1);
    }
  }

  /** A decoder that starts on the finished segment is synchronised with the
      encoder, whatever marker and data follow the segment. */
  lemma StartSynced(tab: seq<nat>, stats: seq<byte>, script: seq<Decision>, m: byte, tail: seq<byte>)
    requires ValidTable(tab) && ValidStats(tab, stats) && ValidScript(script, |stats|)
    requires m != 0 && m != 0xFF
    ensures var u := CodeString(tab, stats, script);
            var s := Dec.State(Dec.Start(Source(Segment(u, m, tail), 0)), stats);
            && Dec.Synced(tab, s, script)
            && Dec.EndOf(tab, s, script) == Enc.EncodeAll(tab, Enc.State(Enc.START, stats), script).stats
            && NextMarker(s.d.src) == Read(m, tail)
  {
    hide Enc.Denotes, Enc.Finish, Ahead, NextByte, NextMarker, Dec.Renorm, Segment, In, Enc.EncodeAll, Enc.Pad;
    var u := CodeString(tab, stats, script);
    var src := Source(Segment(u, m, tail), 0);
    SegmentMarker(u, m, tail);
    StartReads(src);
    EncodedState(tab, stats, script);
    var e := Enc.EncodeAll(tab, Enc.State(Enc.START, stats), script);
    var s := Dec.State(Dec.Start(src), stats);
    var d := Dec.Renorm(s.d);
    assert Dec.Fresh(0x10000) == Interval(0, 0x10000, 0);
    var r := Run(tab, Coder(Dec.Fresh(d.a), stats), script);
    forall j: nat | d.ct + 8 * j >= r.i.k
      ensures In(r.i, Ahead(d.c, d.src, j), d.ct + 8 * j)
    {
      Enc.FinishInside(e.e, r.i, j + 2);
      PaddedValue(u, m, tail, j + 2);
      assert Ahead(d.c, d.src, j) == Ahead(0, src, j + 2);
    }
    assert Dec.Tracks(tab, Dec.State(d, stats), script);
  }

  lemma PaddedValue(u: seq<byte>, m: byte, tail: seq<byte>, nb: nat)
    requires m != 0 && m != 0xFF && |u| <= nb
    ensures Ahead(0, Source(Segment(u, m, tail), 0), nb) == Num(Enc.Pad(u, nb))
  {
    SegmentValue([], u, m, tail, nb);
    assert [] + u + Repeat(0, nb - |u|) == Enc.Pad(u, nb);
  }

  /** Decode a whole list of bins. */
  ghost function DecodeAll(tab: seq<nat>, s: Dec.State, bins: seq<nat>): (r: (seq<bit>, Dec.State))
    requires Dec.ValidState(tab, s) && forall i :: 0 <= i < |bins| ==> bins[i] < |s.stats|
    decreases |bins|
  {
    if bins == [] then ([], s)
    else
      var first := Dec.Decode(tab, s, bins[0]);
      var rest := DecodeAll(tab, first.s, bins[1..]);
      ([first.val] + rest.0, rest.1)
  }

  function Bins(script: seq<Decision>): seq<nat> {
    seq(|script|, i requires 0 <= i < |script| => script[i].bin)
  }

  function Vals(script: seq<Decision>): seq<bit> {
    seq(|script|, i requires 0 <= i < |script| => script[i].val)
  }

  lemma {:induction false} DecodeAllSynced(tab: seq<nat>, s: Dec.State, script: seq<Decision>)
    requires Dec.Synced(tab, s, script)
    ensures Dec.ValidState(tab, s) && ValidScript(script, |s.stats|)
    ensures var r := DecodeAll(tab, s, Bins(script));
            r.0 == Vals(script) && r.1.stats == Dec.EndOf(tab, s, script)
    decreases |script|
  {
    hide Dec.Synced, Dec.Decode;
    Dec.SyncedBasics(tab, s, script);
    if script == [] {
    } else {
      Dec.DecodeSynced(tab, s, script);
      DecodeAllSynced(tab, Dec.Decode(tab, s, script[0].bin).s, script[1..]);
      assert Bins(script)[1..] == Bins(script[1..]);
      assert [script[0].val] + Vals(script[1..]) == Vals(script);
    }
  }

  /** The round trip of the arithmetic coder: for every table, every initial
      statistics and every list of decisions, decoding the finished segment with
      the same bins gives back the decisions, and both sides end with the same
      statistics. */
  lemma DecisionRoundTrip(tab: seq<nat>, stats: seq<byte>, script: seq<Decision>, m: byte, tail: seq<byte>)
    requires ValidTable(tab) && ValidStats(tab, stats) && ValidScript(script, |stats|)
    requires m != 0 && m != 0xFF
    ensures var u := CodeString(tab, stats, script);
            var s := Dec.State(Dec.Start(Source(Segment(u, m, tail), 0)), stats);
            var r := DecodeAll(tab, s, Bins(script));
            && r.0 == Vals(script)
            && r.1.stats == Enc.EncodeAll(tab, Enc.State(Enc.START, stats), script).stats
  {
    hide Dec.Synced;
    StartSynced(tab, stats, script, m, tail);
    var u := CodeString(tab, stats, script);
    DecodeAllSynced(tab, Dec.State(Dec.Start(Source(Segment(u, m, tail), 0)), stats), script);
  }
}

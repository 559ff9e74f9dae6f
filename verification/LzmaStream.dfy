/** Whole LZMA streams: which packet list a stream decodes to, that there is at most one,
    and a stream for every packet list. */
module LzmaStream {
  import opened Wrappers
  import opened LzmaRange
  import opened LzmaPackets
  import opened LzmaUnique

  /** The state after a list of packets, each started before the output was full. */
  function Replay(lz: Lz, ps: seq<Packet>, limit: nat): Option<Lz>
    decreases |ps|
  {
    if ps == [] then Some(lz)
    else if |lz.out| >= limit then None
    else match Apply(lz, ps[0], limit)
      case None => None
      case Some(n) => Replay(n, ps[1..], limit)
  }

  /** The same for a list that is complete: it fills the output, or has an end marker. */
  function Finish(lz: Lz, ps: seq<Packet>, limit: nat): Option<Lz>
    decreases |ps|
  {
    if |lz.out| >= limit then (if ps == [] then Some(lz) else None)
    else if ps == [] then None
    else if IsEndMarker(ps[0]) then (if |ps| == 1 then Some(lz) else None)
    else match Apply(lz, ps[0], limit)
      case None => None
      case Some(n) => Finish(n, ps[1..], limit)
  }

  /** The contexts and bits of a list of packets. */
  function Encode(c: Props, lz: Lz, ps: seq<Packet>, limit: nat): seq<Ev>
    requires c.lc <= 8
    decreases |ps|
  {
    if ps == [] then []
    else
      Events(c, lz, ps[0])
      + match Apply(lz, ps[0], limit) { case None => [] case Some(n) => Encode(c, n, ps[1..], limit) }
  }

  predicate AllEncodable(ps: seq<Packet>) {
    forall k | 0 <= k < |ps| :: Encodable(ps[k])
  }

  /** The machine after `RC_INIT` and the reset of the probabilities. */
  ghost function StartMachine(input: seq<byte>, c: Props): Machine
    requires 5 <= |input|
  {
    Machine(WORD - 1, Spelled(input, 0), 5, seq(c.NumProbs(), i => 1024))
  }

  /** The stream is the code of these packets: the decoder, asked for their contexts,
      returns their bits, and can still normalize once.  They leave the state `lz`, and
      `consumed` bytes have been read. */
  ghost predicate Decodes(c: Props, input: seq<byte>, limit: nat, ps: seq<Packet>, lz: Lz, consumed: nat) {
    && c.Valid() && 5 <= |input| && AllEncodable(ps) && Finish(START, ps, limit) == Some(lz)
    && match Run(input, StartMachine(input, c), Encode(c, START, ps, limit))
       case None => false
       case Some(m) => Normalize(input, m).Some? && Normalize(input, m).value.next == consumed
  }

  // ----- packet lists grow at the end

  lemma AppliedIsNoEnd(lz: Lz, p: Packet, limit: nat)
    requires Apply(lz, p, limit).Some? && |lz.out| < limit < WORD
    ensures !IsEndMarker(p)
  {
    hide Distance, CopyBytes;
  }

  lemma {:induction false} ReplayAfter(lz: Lz, ps: seq<Packet>, p: Packet, limit: nat)
    requires Replay(lz, ps, limit).Some? && |Replay(lz, ps, limit).value.out| < limit
    ensures Replay(lz, ps + [p], limit) == Apply(Replay(lz, ps, limit).value, p, limit)
    decreases |ps|
  {
    hide Apply;
    if ps == [] {
      assert ps + [p] == [p];
    } else {
      assert (ps + [p])[0] == ps[0] && (ps + [p])[1..] == ps[1..] + [p];
      ReplayAfter(Apply(lz, ps[0], limit).value, ps[1..], p, limit);
    }
  }

  lemma {:induction false} FinishAfter(lz: Lz, ps: seq<Packet>, qs: seq<Packet>, limit: nat)
    requires Replay(lz, ps, limit).Some? && limit < WORD
    ensures Finish(lz, ps + qs, limit) == Finish(Replay(lz, ps, limit).value, qs, limit)
    decreases |ps|
  {
    hide Apply, IsEndMarker;
    if ps == [] {
      assert ps + qs == qs;
    } else {
      assert (ps + qs)[0] == ps[0] && (ps + qs)[1..] == ps[1..] + qs;
      AppliedIsNoEnd(lz, ps[0], limit);
      FinishAfter(Apply(lz, ps[0], limit).value, ps[1..], qs, limit);
    }
  }

  lemma {:induction false} EncodeAfter(c: Props, lz: Lz, ps: seq<Packet>, qs: seq<Packet>, limit: nat)
    requires c.lc <= 8 && Replay(lz, ps, limit).Some?
    ensures Encode(c, lz, ps + qs, limit)
            == Encode(c, lz, ps, limit) + Encode(c, Replay(lz, ps, limit).value, qs, limit)
    decreases |ps|
  {
    hide Apply, Events;
    if ps == [] {
      assert ps + qs == qs;
    } else {
      assert (ps + qs)[0] == ps[0] && (ps + qs)[1..] == ps[1..] + qs;
      EncodeAfter(c, Apply(lz, ps[0], limit).value, ps[1..], qs, limit);
    }
  }

  /** The code of one packet and of those after it. */
  lemma EncodeOne(c: Props, lz: Lz, ps: seq<Packet>, limit: nat)
    requires c.lc <= 8 && ps != []
    ensures Events(c, lz, ps[0]) <= Encode(c, lz, ps, limit)
    ensures |ps| == 1 ==> Encode(c, lz, ps, limit) == Events(c, lz, ps[0])
  {
    hide Apply, Events;
  }

  // ----- one stream, one packet list

  /** Lists with different first packets have diverging codes. */
  lemma HeadsDiverge(c: Props, lz: Lz, ps: seq<Packet>, qs: seq<Packet>, limit: nat)
    requires c.lc <= 8 && ps != [] && qs != [] && Encodable(ps[0]) && Encodable(qs[0]) && ps[0] != qs[0]
    ensures Diverge(Encode(c, lz, ps, limit), Encode(c, lz, qs, limit))
  {
    hide Events, Apply, Encode, Diverge;
    var a, b := Events(c, lz, ps[0]), Events(c, lz, qs[0]);
    EventsDiverge(c, lz, ps[0], qs[0]);
    EncodeOne(c, lz, ps, limit);
    EncodeOne(c, lz, qs, limit);
    var x, y := Encode(c, lz, ps, limit), Encode(c, lz, qs, limit);
    assert x == a + x[|a|..] && y == b + y[|b|..];
    DivergeExtend(a, b, x[|a|..], y[|b|..]);
  }

  /** Two complete packet lists that the decoder reads from the same stream are the same. */
  lemma {:induction false} SamePackets(c: Props, lz: Lz, ps: seq<Packet>, qs: seq<Packet>, limit: nat,
                                       input: seq<byte>, m: Machine)
    requires c.lc <= 8 && AllEncodable(ps) && AllEncodable(qs)
    requires Run(input, m, Encode(c, lz, ps, limit)).Some? && Run(input, m, Encode(c, lz, qs, limit)).Some?
    requires Finish(lz, ps, limit).Some? && Finish(lz, qs, limit).Some?
    ensures ps == qs
    decreases |ps|
  {
    hide Events, Apply, Run, Encodable, IsEndMarker, Diverge;
    if ps != [] && qs != [] {
      if ps[0] != qs[0] {
        HeadsDiverge(c, lz, ps, qs, limit);
        DivergeRun(input, m, Encode(c, lz, ps, limit), Encode(c, lz, qs, limit));
      } else if !IsEndMarker(ps[0]) {
        var n := Apply(lz, ps[0], limit).value;
        var a := Events(c, lz, ps[0]);
        RunAppend(input, m, a, Encode(c, n, ps[1..], limit));
        RunAppend(input, m, a, Encode(c, n, qs[1..], limit));
        SamePackets(c, n, ps[1..], qs[1..], limit, input, Run(input, m, a).value);
        assert ps == [ps[0]] + ps[1..] && qs == [qs[0]] + qs[1..];
      }
    }
  }

  /** A stream has one meaning. */
  lemma DecodesOnce(c: Props, input: seq<byte>, limit: nat, ps: seq<Packet>, lz: Lz, consumed: nat, qs: seq<Packet>,
                    lz': Lz, consumed': nat)
    requires Decodes(c, input, limit, ps, lz, consumed) && Decodes(c, input, limit, qs, lz', consumed')
    ensures ps == qs && lz == lz' && consumed == consumed'
  {
    hide Finish, Encode, Run, Normalize, StartMachine, AllEncodable;
    SamePackets(c, START, ps, qs, limit, input, StartMachine(input, c));
  }

  /** Packets the decoder has read are the first of any list that is still possible. */
  lemma {:induction false} ReadSoFar(c: Props, lz: Lz, done: seq<Packet>, ps: seq<Packet>, limit: nat,
                                     input: seq<byte>, m: Machine)
    requires c.lc <= 8 && AllEncodable(done) && AllEncodable(ps) && limit < WORD
    requires Replay(lz, done, limit).Some? && Finish(lz, ps, limit).Some?
    requires Run(input, m, Encode(c, lz, done, limit)).Some? && Run(input, m, Encode(c, lz, ps, limit)).Some?
    ensures done <= ps
    decreases |done|
  {
    hide Events, Apply, Run, Encodable, IsEndMarker, Diverge;
    if done != [] {
      if ps[0] != done[0] {
        HeadsDiverge(c, lz, done, ps, limit);
        DivergeRun(input, m, Encode(c, lz, done, limit), Encode(c, lz, ps, limit));
      } else {
        AppliedIsNoEnd(lz, done[0], limit);
        var n := Apply(lz, done[0], limit).value;
        var a := Events(c, lz, done[0]);
        RunAppend(input, m, a, Encode(c, n, done[1..], limit));
        RunAppend(input, m, a, Encode(c, n, ps[1..], limit));
        ReadSoFar(c, n, done[1..], ps[1..], limit, input, Run(input, m, a).value);
        assert ps == [ps[0]] + ps[1..] && done == [done[0]] + done[1..];
      }
    }
  }

  /** A decoder that runs out of input on the way to `full` cannot be on its way through
      `u` either, be it longer or different. */
  lemma {:induction false} StarvedEverywhere(input: seq<byte>, m: Machine, t: seq<Ev>, full: seq<Ev>, u: seq<Ev>)
    requires t < full && (full <= u || Diverge(full, u))
    requires Run(input, m, t).Some? && Normalize(input, Run(input, m, t).value).None?
    ensures Run(input, m, u).None?
    decreases |t|
  {
    hide Normalize;
    if t == [] {
      StarvedStep(input, m, u[0]);
    } else if u[0] == t[0] {
      hide Step;
      StarvedEverywhere(input, Step(input, m, t[0]).value, t[1..], full[1..], u[1..]);
    }
  }

  lemma StarvedStep(input: seq<byte>, m: Machine, ev: Ev)
    requires Normalize(input, m).None?
    ensures Step(input, m, ev).None?
  {}

  /** If the decoder, after the packets `done`, fails in the packet `p`, then the stream is
      not the code of any packets. */
  lemma NoneFits(c: Props, input: seq<byte>, limit: nat, done: seq<Packet>, p: Packet, trace: seq<Ev>,
                 ps: seq<Packet>, lz: Lz, consumed: nat)
    requires c.Valid() && 5 <= |input| && limit < WORD && AllEncodable(done) && Encodable(p)
    requires Replay(START, done, limit).Some? && |Replay(START, done, limit).value.out| < limit
    requires var s := StartMachine(input, c);
             Run(input, s, Encode(c, START, done, limit)).Some? && Run(input, s, trace).Some?
    requires Stuck(c, input, limit, done, p, trace)
    ensures !Decodes(c, input, limit, ps, lz, consumed)
  {
    hide Events, Apply, Run, Finish, Encode, Replay, Encodable, IsEndMarker, Diverge, Normalize, StartMachine;
    if Decodes(c, input, limit, ps, lz, consumed) {
      var s, now := StartMachine(input, c), Replay(START, done, limit).value;
      ReadSoFar(c, START, done, ps, limit, input, s);
      var rest := ps[|done|..];
      assert ps == done + rest;
      FinishAfter(START, done, rest, limit);
      FinishMore(now, rest, limit);
      EncodeAfter(c, START, done, rest, limit);
      EncodeOne(c, now, rest, limit);
      var before := Encode(c, START, done, limit);
      var full, u := before + Events(c, now, p), before + Encode(c, now, rest, limit);
      if rest[0] != p {
        EncodeOne(c, now, [p], limit);
        HeadsDiverge(c, now, [p], rest, limit);
        DivergeAfter(before, Events(c, now, p), Encode(c, now, rest, limit));
      }
      if trace < full {
        StarvedEverywhere(input, s, trace, full, u);
      } else {
        if rest[0] != p { DivergeRun(input, s, full, u); }
      }
    }
  }

  /** The decoder has failed in the packet `p`: at the end of the input, or at a distance
      that reaches before the output. */
  ghost predicate Stuck(c: Props, input: seq<byte>, limit: nat, done: seq<Packet>, p: Packet, trace: seq<Ev>)
    requires c.Valid() && 5 <= |input| && Replay(START, done, limit).Some?
    requires Run(input, StartMachine(input, c), trace).Some?
  {
    var lz := Replay(START, done, limit).value;
    var full := Encode(c, START, done, limit) + Events(c, lz, p);
    (trace < full && Normalize(input, Run(input, StartMachine(input, c), trace).value).None?)
    || (trace == full && !IsEndMarker(p) && Apply(lz, p, limit).None?)
  }

  lemma FinishMore(lz: Lz, rest: seq<Packet>, limit: nat)
    requires Finish(lz, rest, limit).Some? && |lz.out| < limit
    ensures rest != [] && (IsEndMarker(rest[0]) || Apply(lz, rest[0], limit).Some?)
  {
    hide Apply, IsEndMarker;
  }

  /** No packets at all have this stream as their code. */
  ghost predicate NotAStream(c: Props, input: seq<byte>, limit: nat) {
    forall ps, lz, consumed :: !Decodes(c, input, limit, ps, lz, consumed)
  }

  lemma NothingFits(c: Props, input: seq<byte>, limit: nat, done: seq<Packet>, p: Packet, trace: seq<Ev>)
    requires c.Valid() && 5 <= |input| && limit < WORD && AllEncodable(done) && Encodable(p)
    requires Replay(START, done, limit).Some? && |Replay(START, done, limit).value.out| < limit
    requires var s := StartMachine(input, c);
             Run(input, s, Encode(c, START, done, limit)).Some? && Run(input, s, trace).Some?
    requires Stuck(c, input, limit, done, p, trace)
    ensures NotAStream(c, input, limit)
  {
    hide Decodes, Stuck, Replay, Encode, Run, Encodable, AllEncodable, StartMachine;
    forall ps, lz, consumed ensures !Decodes(c, input, limit, ps, lz, consumed) {
      NoneFits(c, input, limit, done, p, trace, ps, lz, consumed);
    }
  }

  lemma TooShort(c: Props, input: seq<byte>, limit: nat)
    requires |input| < 5
    ensures NotAStream(c, input, limit)
  {}

  /** The packets are complete, with this code and this output. */
  ghost predicate IsDone(c: Props, limit: nat, ps: seq<Packet>, trace: seq<Ev>, out: seq<byte>) {
    && c.lc <= 8 && AllEncodable(ps) && trace == Encode(c, START, ps, limit)
    && Finish(START, ps, limit).Some? && out == Finish(START, ps, limit).value.out
  }

  lemma NoneYet(c: Props, limit: nat)
    ensures AllEncodable([]) && Replay(START, [], limit) == Some(START)
            && (c.lc <= 8 ==> Encode(c, START, [], limit) == [])
  {}

  lemma ThroughMore(c: Props, limit: nat, ps: seq<Packet>, lz: Lz, p: Packet)
    requires c.lc <= 8 && AllEncodable(ps) && Encodable(p) && Replay(START, ps, limit) == Some(lz) && |lz.out| < limit
    ensures AllEncodable(ps + [p]) && Replay(START, ps + [p], limit) == Apply(lz, p, limit)
    ensures Encode(c, START, ps + [p], limit) == Encode(c, START, ps, limit) + Events(c, lz, p)
  {
    hide Encodable, Replay, Encode, Apply, Events;
    ReplayAfter(START, ps, p, limit);
    EncodeAfter(c, START, ps, [p], limit);
    EncodeOne(c, lz, [p], limit);
  }

  lemma ThroughEnd(c: Props, limit: nat, ps: seq<Packet>, lz: Lz, p: Packet)
    requires c.lc <= 8 && AllEncodable(ps) && Encodable(p) && Replay(START, ps, limit) == Some(lz)
             && |lz.out| < limit < WORD
    requires IsEndMarker(p)
    ensures IsDone(c, limit, ps + [p], Encode(c, START, ps, limit) + Events(c, lz, p), lz.out)
  {
    hide Encodable, AllEncodable, Replay, Encode, Apply, Events, IsEndMarker;
    ThroughMore(c, limit, ps, lz, p);
    FinishAfter(START, ps, [p], limit);
  }

  lemma ThroughFull(c: Props, limit: nat, ps: seq<Packet>, lz: Lz)
    requires c.lc <= 8 && AllEncodable(ps) && Replay(START, ps, limit) == Some(lz) && limit <= |lz.out| && limit < WORD
    ensures IsDone(c, limit, ps, Encode(c, START, ps, limit), lz.out)
  {
    hide Encodable, AllEncodable, Replay, Encode, Apply, Events, IsEndMarker;
    FinishAfter(START, ps, [], limit);
    assert ps + [] == ps;
  }

  lemma IsStuck(c: Props, input: seq<byte>, limit: nat, done: seq<Packet>, lz: Lz, p: Packet, trace: seq<Ev>)
    requires c.Valid() && 5 <= |input| && Replay(START, done, limit) == Some(lz)
    requires Run(input, StartMachine(input, c), trace).Some?
    requires var full := Encode(c, START, done, limit) + Events(c, lz, p);
             (trace < full && Normalize(input, Run(input, StartMachine(input, c), trace).value).None?)
             || (trace == full && !IsEndMarker(p) && Apply(lz, p, limit).None?)
    ensures Stuck(c, input, limit, done, p, trace)
  {}

  /** What a complete list of packets leaves; and that a stream which ends before the last
      normalization is not the code of any other list either. */
  lemma TheResult(c: Props, input: seq<byte>, limit: nat, ps: seq<Packet>, trace: seq<Ev>, m: Machine, out: seq<byte>)
    returns (lz: Lz)
    requires c.Valid() && 5 <= |input| && IsDone(c, limit, ps, trace, out)
    requires Run(input, StartMachine(input, c), trace) == Some(m)
    ensures lz.out == out
    ensures Normalize(input, m).Some? ==> Decodes(c, input, limit, ps, lz, Normalize(input, m).value.next)
    ensures Normalize(input, m).None? ==> NotAStream(c, input, limit)
  {
    hide AllEncodable, Finish, Encode, Run, Normalize, StartMachine;
    lz := Finish(START, ps, limit).value;
    if Normalize(input, m).None? {
      forall qs, other, consumed ensures !Decodes(c, input, limit, qs, other, consumed) {
        if Decodes(c, input, limit, qs, other, consumed) {
          SamePackets(c, START, ps, qs, limit, input, StartMachine(input, c));
        }
      }
    }
  }
}

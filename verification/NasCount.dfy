/**
  The NAS COUNT: 16 bits of overflow and an 8-bit sequence number, of which only
  the latter is sent (section 4.4.3.1 of 3GPP TS 24.501).
*/
module NasCounts {

  const MODULUS := 0x100_0000

  type octet = b: int | 0 <= b < 0x100
  type octet2 = b: int | 0 <= b < 0x1_0000

  datatype NasCount = NasCount(overflow: octet2, sqn: octet)

  /** `toOctet4`: shifting the overflow by eight bits and adding the sequence number. */
  function ToOctet4(c: NasCount): (v: int)
    ensures 0 <= v < MODULUS
  {
    var overflow: int, sqn: int := c.overflow, c.sqn;
    overflow * 0x100 + sqn
  }

  /** The count with a given 24-bit value. */
  function OfValue(v: int): (c: NasCount)
    requires 0 <= v < MODULUS
  {
    NasCount(v / 0x100, v % 0x100)
  }

  /** Counts are 24-bit numbers. */
  lemma CountIsValue(c: NasCount, v: int)
    requires 0 <= v < MODULUS
    ensures OfValue(ToOctet4(c)) == c && ToOctet4(OfValue(v)) == v
  {
    assert v == v / 0x100 * 0x100 + v % 0x100;
  }

  lemma SameValue(c: NasCount, d: NasCount)
    ensures ToOctet4(c) == ToOctet4(d) <==> c == d
  {
    var h: int, k: int := c.overflow, d.overflow;
    if ToOctet4(c) == ToOctet4(d) {
      assert (h - k) * 0x100 == d.sqn as int - c.sqn as int;
      assert -0x100 < (h - k) * 0x100 < 0x100;
    }
  }

  /** Counting on by `d`, around the modulus. */
  function Plus(v: int, d: int): (w: int)
    requires 0 <= v < MODULUS && -MODULUS <= d <= MODULUS
    ensures 0 <= w < MODULUS && w == (v + d) % MODULUS
  {
    if v + d < 0 then v + d + MODULUS else if v + d >= MODULUS then v + d - MODULUS else v + d
  }

  /** How far `b` is after `a`, around the modulus. */
  function Distance(a: NasCount, b: NasCount): (d: int)
    ensures 0 <= d < MODULUS
  {
    Plus(ToOctet4(b), -ToOctet4(a))
  }

  /** `estimatedDownlinkCount`: the overflow goes on when the sequence number has come around. */
  function Estimated(last: NasCount, sequenceNumber: octet): (c: NasCount) {
    NasCount(if last.sqn > sequenceNumber then (last.overflow + 1) % 0x1_0000 else last.overflow, sequenceNumber)
  }

  /**
    The estimate is the sender's count exactly if the count is at most 255 after
    the last one received, around the modulus.
  */
  lemma EstimateExact(last: NasCount, sent: NasCount)
    ensures Estimated(last, sent.sqn) == sent <==> Distance(last, sent) <= 255
  {
    var e := Estimated(last, sent.sqn);
    SameValue(e, sent);
    var s: int, t: int := last.sqn, sent.sqn;
    assert Distance(last, e) == if s <= t then t - s else t - s + 0x100;
    NearIsUnique(last, e, sent);
  }

  /** Of the counts with one sequence number, one is less than 256 after a given count. */
  lemma NearIsUnique(last: NasCount, e: NasCount, sent: NasCount)
    requires e.sqn == sent.sqn && Distance(last, e) <= 255
    ensures ToOctet4(e) == ToOctet4(sent) <==> Distance(last, sent) <= 255
  {
    var h: int, k: int := e.overflow, sent.overflow;
    assert ToOctet4(e) - ToOctet4(sent) == (h - k) * 0x100;
    assert h != k ==> (h - k) * 0x100 >= 0x100 || (h - k) * 0x100 <= -0x100;
  }

  class NasSecurityContext {
    var downlinkCount: NasCount
    var uplinkCount: NasCount

    constructor (downlinkCount: NasCount, uplinkCount: NasCount)
      ensures this.downlinkCount == downlinkCount && this.uplinkCount == uplinkCount
    {
      this.downlinkCount, this.uplinkCount := downlinkCount, uplinkCount;
    }

    /** `countOnEncrypt`: the next 24-bit number. */
    method CountOnEncrypt()
      modifies `uplinkCount
      ensures ToOctet4(uplinkCount) == Plus(old(ToOctet4(uplinkCount)), 1)
    {
      uplinkCount := uplinkCount.(sqn := (uplinkCount.sqn + 1) % 0x100);
      if uplinkCount.sqn == 0 {
        uplinkCount := uplinkCount.(overflow := (uplinkCount.overflow + 1) % 0x1_0000);
      }
    }

    /** `rollbackCountOnEncrypt`: the 24-bit number before. */
    method RollbackCountOnEncrypt()
      modifies `uplinkCount
      ensures ToOctet4(uplinkCount) == Plus(old(ToOctet4(uplinkCount)), -1)
    {
      if uplinkCount.sqn == 0 {
        uplinkCount := uplinkCount.(sqn := 0xFF);
        if uplinkCount.overflow == 0 {
          uplinkCount := uplinkCount.(overflow := 0xFFFF);
        } else {
          uplinkCount := uplinkCount.(overflow := uplinkCount.overflow - 1);
        }
      } else {
        uplinkCount := uplinkCount.(sqn := uplinkCount.sqn - 1);
      }
    }

    /** `updateDownlinkCount`. */
    method UpdateDownlinkCount(validated: NasCount)
      modifies `downlinkCount
      ensures downlinkCount == validated
    {
      downlinkCount := NasCount(validated.overflow, validated.sqn);
    }

    /** `estimatedDownlinkCount`: the sender's count exactly if that is at most 255 ahead. */
    method EstimatedDownlinkCount(sequenceNumber: octet) returns (count: NasCount)
      ensures count == Estimated(downlinkCount, sequenceNumber)
      ensures forall sent: NasCount {:trigger Distance(downlinkCount, sent)} :: sent.sqn == sequenceNumber ==>
                (count == sent <==> Distance(downlinkCount, sent) <= 255)
    {
      forall sent: NasCount | sent.sqn == sequenceNumber
        ensures Estimated(downlinkCount, sequenceNumber) == sent <==> Distance(downlinkCount, sent) <= 255
      {
        EstimateExact(downlinkCount, sent);
      }
      count := NasCount(downlinkCount.overflow, downlinkCount.sqn);
      if count.sqn > sequenceNumber {
        count := count.(overflow := (count.overflow + 1) % 0x1_0000);
      }
      count := count.(sqn := sequenceNumber);
    }
  }

  // --------------------------------------------------------------- whole runs

  datatype Use = Encrypt | Rollback

  /** The uplink count after a run. */
  ghost function AfterRun(v: int, run: seq<Use>): (w: int)
    requires 0 <= v < MODULUS
    ensures 0 <= w < MODULUS
    decreases |run|
  {
    if run == [] then v else AfterRun(Plus(v, if run[0].Encrypt? then 1 else -1), run[1..])
  }

  ghost function Net(run: seq<Use>): (n: int) {
    if run == [] then 0 else (if run[0].Encrypt? then 1 else -1) + Net(run[1..])
  }

  /** Over any run the count is start plus encryptions less rollbacks, around the modulus. */
  lemma {:induction false} RunCounts(v: int, run: seq<Use>)
    requires 0 <= v < MODULUS
    ensures AfterRun(v, run) == (v + Net(run)) % MODULUS
    decreases |run|
  {
    if run != [] {
      var d, n := if run[0].Encrypt? then 1 else -1, Net(run[1..]);
      RunCounts(Plus(v, d), run[1..]);
      SameRemainder(Plus(v, d) + n, v + d + n);
    }
  }

  lemma SameRemainder(x: int, y: int)
    requires x == y || x == y + MODULUS || x == y - MODULUS
    ensures x % MODULUS == y % MODULUS
  {
  }

  /** The sender's count after each of a run of messages, `gaps[i]` counts after the one before. */
  ghost function SentCounts(last: int, gaps: seq<nat>): (counts: seq<NasCount>)
    requires 0 <= last < MODULUS && forall i :: 0 <= i < |gaps| ==> gaps[i] <= 255
    decreases |gaps|
  {
    if gaps == [] then [] else
      var v := Plus(last, gaps[0]);
      [OfValue(v)] + SentCounts(v, gaps[1..])
  }

  /** What a receiver that takes over each estimate makes of the sequence numbers. */
  ghost function ReceivedCounts(last: NasCount, sent: seq<NasCount>): (counts: seq<NasCount>)
    decreases |sent|
  {
    if sent == [] then [] else
      var e := Estimated(last, sent[0].sqn);
      [e] + ReceivedCounts(e, sent[1..])
  }

  /** If no more than 254 messages in a row are lost, every estimate in the run is the sender's count. */
  lemma {:induction false} RunFollowed(last: NasCount, gaps: seq<nat>)
    requires forall i :: 0 <= i < |gaps| ==> gaps[i] <= 255
    ensures ReceivedCounts(last, SentCounts(ToOctet4(last), gaps)) == SentCounts(ToOctet4(last), gaps)
    decreases |gaps|
  {
    if gaps != [] {
      var v := Plus(ToOctet4(last), gaps[0]);
      var sent := OfValue(v);
      CountIsValue(last, v);
      assert Distance(last, sent) == gaps[0];
      EstimateExact(last, sent);
      RunFollowed(sent, gaps[1..]);
      var rest := SentCounts(v, gaps[1..]);
      assert ([sent] + rest)[1..] == rest;
    }
  }

  /** With 255 messages lost the estimate is the last count again. */
  lemma OneTooMany()
    ensures Estimated(NasCount(0, 7), NasCount(1, 7).sqn) == NasCount(0, 7)
    ensures Distance(NasCount(0, 7), NasCount(1, 7)) == 256
  {
  }
}

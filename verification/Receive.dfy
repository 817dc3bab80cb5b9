/** The thread that times four RST packets, over a trace of received packets and clock readings. */
module Receive {
  import opened Bytes
  import opened Bits
  import Headers = Packet
  import Checksum

  const RECV_BUFFER: nat := 1024
  const RST_FLAG: nat := 4
  const FLAGS_AT: nat := 33

  /** A `timeval`: whole seconds and the microseconds on top. */
  datatype Time = Time(sec: int, usec: int)

  predicate Valid(t: Time) { 0 <= t.usec < 1000000 }

  function Micro(t: Time): int { 1000000 * t.sec + t.usec }

  function TimeDiffMilli(a: Time, b: Time): int {
    (a.sec * 1000 + a.usec / 1000) - (b.sec * 1000 + b.usec / 1000)
  }

  function TimeDiffSec(a: Time, b: Time): int {
    (a.sec + a.usec / 1000000) - (b.sec + b.usec / 1000000)
  }

  /**
   * What the routine leaves behind: no result because receiving failed, no result yet because it still waits for a
   * packet, or one of the three result texts.
   */
  datatype Outcome = Failed | Waiting | Insufficient | Detected | NotDetected

  /** A received packet, or nothing if receiving failed. */
  type Packet = Option<bytes>

  predicate IsRst(buf: bytes)
    requires |buf| == RECV_BUFFER
  {
    And(buf[FLAGS_AT], RST_FLAG) != 0
  }

  lemma BitTwo(b: nat)
    ensures And(b, 4) != 0 <==> b / 4 % 2 == 1
  {
    assert And(b, 4) == 2 * And(b / 2, 2);
    assert And(b / 2, 2) == 2 * And(b / 4, 1);
    MaskOne(b / 4);
  }

  /** Behind twenty bytes of IP header, a packet is an RST if and only if bit 2 of byte 13 of its TCP header is set. */
  lemma RstExactly(buf: bytes, ip: bytes, tcp: bytes, rest: bytes)
    requires |buf| == 1024 && buf == ip + tcp + rest && |ip| == 20 && |tcp| >= 20
    ensures IsRst(buf) <==> tcp[13] / 4 % 2 == 1
  {
    hide And;
    assert buf[33] == tcp[13];
    BitTwo(buf[33]);
  }

  /** The SYN packet that the program itself builds is no RST. */
  lemma SynIsNoRst(buf: bytes, order: Checksum.Order, src: Headers.Address, dst: Headers.Address,
                   seqNumber: Headers.uint32, rest: bytes)
    requires |buf| == 1024
    requires buf == Headers.SummedIp(order, src, dst) + Headers.SummedTcp(order, src, dst, seqNumber) + rest
    ensures !IsRst(buf)
  {
    hide *;
    Headers.PacketFields(order, src, dst, seqNumber);
    RstExactly(buf, Headers.SummedIp(order, src, dst), Headers.SummedTcp(order, src, dst, seqNumber), rest);
  }

  /** Both differences drop what is below their unit before they subtract. */
  lemma Differences(a: Time, b: Time)
    requires Valid(a) && Valid(b)
    ensures TimeDiffMilli(a, b) == (1000000 * a.sec + a.usec) / 1000 - (1000000 * b.sec + b.usec) / 1000
    ensures TimeDiffSec(a, b) == (1000000 * a.sec + a.usec) / 1000000 - (1000000 * b.sec + b.usec) / 1000000
  {
    assert (1000000 * a.sec + a.usec) / 1000 == 1000 * a.sec + a.usec / 1000;
    assert (1000000 * b.sec + b.usec) / 1000 == 1000 * b.sec + b.usec / 1000;
  }

  predicate Trace(packets: seq<Packet>, clock: seq<Time>) {
    && (forall i | 0 <= i < |packets| :: packets[i].Some? ==> |packets[i].value| == RECV_BUFFER)
    && (forall i | 0 <= i < |clock| :: Valid(clock[i]))
    && |clock| >= 2 + 3 * |packets|
  }

  /** Any packets of the buffer's size and missing ones, with enough clock readings, make a trace. */
  lemma TraceExactly(packets: seq<Packet>, clock: seq<Time>)
    ensures Trace(packets, clock) <==>
              && (forall p | p in packets && p.Some? :: |p.value| == 1024)
              && (forall t | t in clock :: 0 <= t.usec < 1000000)
              && |clock| >= 3 * |packets| + 2
  {
    if Trace(packets, clock) {
      forall p | p in packets && p.Some? ensures |p.value| == 1024 {
        var i :| 0 <= i < |packets| && packets[i] == p;
      }
      forall t | t in clock ensures 0 <= t.usec < 1000000 {
        var i :| 0 <= i < |clock| && clock[i] == t;
      }
    }
  }

  predicate RstAt(packets: seq<Packet>, i: nat)
    requires i < |packets| && (packets[i].Some? ==> |packets[i].value| == RECV_BUFFER)
  {
    packets[i].Some? && IsRst(packets[i].value)
  }

  // ----- What has happened after the first `n` packets -----

  function Rsts(packets: seq<Packet>, clock: seq<Time>, n: nat): (r: nat)
    requires Trace(packets, clock) && n <= |packets|
    ensures r <= n
  {
    if n == 0 then 0 else Rsts(packets, clock, n - 1) + if RstAt(packets, n - 1) then 1 else 0
  }

  /** How many clock readings were taken: two at first, one more for each packet, three if it is an RST. */
  function Readings(packets: seq<Packet>, clock: seq<Time>, n: nat): (r: nat)
    requires Trace(packets, clock) && n <= |packets|
    ensures 2 <= r <= 2 + 3 * n
  {
    2 + n + 2 * Rsts(packets, clock, n)
  }

  /** The first readings after the RSTs, in order. */
  function Stamps(packets: seq<Packet>, clock: seq<Time>, n: nat): (r: seq<Time>)
    requires Trace(packets, clock) && n <= |packets|
    ensures |r| == Rsts(packets, clock, n)
  {
    if n == 0 then []
    else Stamps(packets, clock, n - 1) +
         if RstAt(packets, n - 1) then [clock[Readings(packets, clock, n - 1)]] else []
  }

  /** When the timeout was last restarted: at the beginning and after every RST. */
  function Began(packets: seq<Packet>, clock: seq<Time>, n: nat): Time
    requires Trace(packets, clock) && n <= |packets|
  {
    if n == 0 then clock[0]
    else if RstAt(packets, n - 1) then clock[Readings(packets, clock, n - 1) + 1]
    else Began(packets, clock, n - 1)
  }

  function Now(packets: seq<Packet>, clock: seq<Time>, n: nat): Time
    requires Trace(packets, clock) && n <= |packets|
  {
    clock[Readings(packets, clock, n) - 1]
  }

  predicate TimedOut(packets: seq<Packet>, clock: seq<Time>, n: nat, timeout: int)
    requires Trace(packets, clock) && n <= |packets|
  {
    TimeDiffSec(Now(packets, clock, n), Began(packets, clock, n)) > timeout
  }

  /** The first `n` packets all arrived, none was the fourth RST, and the time was never up in between. */
  predicate Ran(packets: seq<Packet>, clock: seq<Time>, n: nat, timeout: int)
    requires Trace(packets, clock) && n <= |packets|
  {
    && (forall i | 0 <= i < n :: packets[i].Some? && !TimedOut(packets, clock, i, timeout))
    && Rsts(packets, clock, n) <= 3
  }

  /** The verdict over four stamps: by how much the second train took longer than the first. */
  function Verdict(stamps: seq<Time>, threshold: int): (r: Outcome)
    requires |stamps| == 4
    ensures r == Detected || r == NotDetected
  {
    var lowDelta := TimeDiffMilli(stamps[1], stamps[0]);
    var highDelta := TimeDiffMilli(stamps[3], stamps[2]);
    if highDelta - lowDelta > threshold then Detected else NotDetected
  }

  /**
   * How a run ends. Of all ways exactly one applies: after `n` packets the time is up, or the next packet is missing,
   * or it is the fourth RST, or there is no next packet.
   */
  predicate Ends(packets: seq<Packet>, clock: seq<Time>, timeout: int, threshold: int, n: nat, outcome: Outcome)
    requires Trace(packets, clock)
  {
    n <= |packets| && Ran(packets, clock, n, timeout) &&
    if TimedOut(packets, clock, n, timeout) then outcome == Insufficient
    else if n == |packets| then outcome == Waiting
    else if packets[n] == None then outcome == Failed
    else
      && RstAt(packets, n) && Rsts(packets, clock, n) == 3
      && outcome == Verdict(Stamps(packets, clock, n + 1), threshold)
  }

  lemma AtStart(packets: seq<Packet>, clock: seq<Time>, timeout: int)
    requires Trace(packets, clock)
    ensures Ran(packets, clock, 0, timeout) && Rsts(packets, clock, 0) == 0 && Readings(packets, clock, 0) == 2
    ensures Began(packets, clock, 0) == clock[0] && Now(packets, clock, 0) == clock[1]
  {
  }

  /** One more packet. */
  lemma Next(packets: seq<Packet>, clock: seq<Time>, n: nat, timeout: int)
    requires Trace(packets, clock) && n < |packets| && Ran(packets, clock, n, timeout)
    requires !TimedOut(packets, clock, n, timeout) && packets[n].Some?
    requires RstAt(packets, n) ==> Rsts(packets, clock, n) < 3
    ensures Ran(packets, clock, n + 1, timeout)
    ensures var r := Readings(packets, clock, n);
            if RstAt(packets, n) then
              && Rsts(packets, clock, n + 1) == Rsts(packets, clock, n) + 1
              && Readings(packets, clock, n + 1) == r + 3
              && Stamps(packets, clock, n + 1) == Stamps(packets, clock, n) + [clock[r]]
              && Began(packets, clock, n + 1) == clock[r + 1] && Now(packets, clock, n + 1) == clock[r + 2]
            else
              && Rsts(packets, clock, n + 1) == Rsts(packets, clock, n)
              && Readings(packets, clock, n + 1) == r + 1
              && Stamps(packets, clock, n + 1) == Stamps(packets, clock, n)
              && Began(packets, clock, n + 1) == Began(packets, clock, n) && Now(packets, clock, n + 1) == clock[r]
  {
    hide TimedOut, RstAt;
  }

  lemma Fourth(packets: seq<Packet>, clock: seq<Time>, n: nat)
    requires Trace(packets, clock) && n < |packets| && RstAt(packets, n)
    ensures Stamps(packets, clock, n + 1) == Stamps(packets, clock, n) + [clock[Readings(packets, clock, n)]]
  {
    hide RstAt;
  }

  lemma UpToDate(packets: seq<Packet>, clock: seq<Time>, n: nat, timeout: int)
    requires Trace(packets, clock) && n <= |packets|
    ensures TimedOut(packets, clock, n, timeout) <==>
              TimeDiffSec(Now(packets, clock, n), Began(packets, clock, n)) > timeout
  {
  }

  /** The routine; the timestamps are unset until an RST sets them. */
  method ReceiveRoutine(packets: seq<Packet>, clock: seq<Time>, rstTimeout: int, threshold: int)
    returns (result: Outcome, n: nat)
    requires Trace(packets, clock)
    ensures Ends(packets, clock, rstTimeout, threshold, n, result)
  {
    hide And, TimedOut, TimeDiffSec, TimeDiffMilli, Rsts, Readings, Stamps, Began, Now, Ran;
    var lowHead, lowTail, highHead, highTail: Option<Time> := None, None, None, None;
    var tail, highTrain := false, false;
    var beg, curr, c := clock[0], clock[1], 2;
    n := 0;
    AtStart(packets, clock, rstTimeout);
    while TimeDiffSec(curr, beg) <= rstTimeout
      invariant n <= |packets| && Ran(packets, clock, n, rstTimeout)
      invariant c == Readings(packets, clock, n)
      invariant beg == Began(packets, clock, n) && curr == Now(packets, clock, n)
      invariant Rsts(packets, clock, n) == (if highTrain then 2 else 0) + if tail then 1 else 0
      invariant var stamps := Stamps(packets, clock, n);
                && (|stamps| > 0 ==> lowHead == Some(stamps[0]))
                && (|stamps| > 1 ==> lowTail == Some(stamps[1]))
                && (|stamps| > 2 ==> highHead == Some(stamps[2]))
      decreases |packets| - n
    {
      UpToDate(packets, clock, n, rstTimeout);
      if n == |packets| {
        return Waiting, n;
      }
      if packets[n] == None {
        return Failed, n;
      }
      if And(packets[n].value[FLAGS_AT], RST_FLAG) != 0 {
        if !tail {
          if !highTrain {
            lowHead := Some(clock[c]);
          } else {
            highHead := Some(clock[c]);
          }
          tail := true;
        } else {
          if !highTrain {
            lowTail := Some(clock[c]);
            highTrain := true;
            tail := false;
          } else {
            highTail := Some(clock[c]);
            Fourth(packets, clock, n);
            break;
          }
        }
        beg := clock[c + 1];
        c := c + 2;
      }
      Next(packets, clock, n, rstTimeout);
      curr := clock[c];
      c := c + 1;
      n := n + 1;
    }
    UpToDate(packets, clock, n, rstTimeout);
    if TimeDiffSec(curr, beg) > rstTimeout {
      result := Insufficient;
    } else {
      var lowDelta := TimeDiffMilli(lowTail.value, lowHead.value);
      var highDelta := TimeDiffMilli(highTail.value, highHead.value);
      var delta := highDelta - lowDelta;
      result := if delta > threshold then Detected else NotDetected;
    }
  }

  lemma {:induction false} MoreRsts(packets: seq<Packet>, clock: seq<Time>, n: nat, m: nat)
    requires Trace(packets, clock) && n <= m <= |packets|
    ensures Rsts(packets, clock, n) <= Rsts(packets, clock, m)
  {
    if n < m { MoreRsts(packets, clock, n, m - 1); }
  }

  /** A run ends in one way only. */
  lemma EndsOnce(packets: seq<Packet>, clock: seq<Time>, timeout: int, threshold: int, n: nat, o: Outcome, m: nat,
                 p: Outcome)
    requires Trace(packets, clock) && n <= m
    requires Ends(packets, clock, timeout, threshold, n, o) && Ends(packets, clock, timeout, threshold, m, p)
    ensures n == m && o == p
  {
    hide TimedOut, IsRst, Verdict, Stamps;
    if n < m {
      MoreRsts(packets, clock, n + 1, m);
    }
  }

  // ----- What the verdict says about real time -----

  predicate Ordered(stamps: seq<Time>) {
    && (forall i | 0 <= i < |stamps| :: Valid(stamps[i]))
    && (forall i | 0 < i < |stamps| :: Micro(stamps[i - 1]) <= Micro(stamps[i]))
  }

  /** By how many microseconds the second train really took longer than the first. */
  function TrueGap(stamps: seq<Time>): int
    requires |stamps| == 4
  {
    (Micro(stamps[3]) - Micro(stamps[2])) - (Micro(stamps[1]) - Micro(stamps[0]))
  }

  lemma MilliTruncates(t: Time)
    requires Valid(t)
    ensures t.sec * 1000 + t.usec / 1000 == Micro(t) / 1000
  {
  }

  function At(micro: int): (t: Time)
    ensures Valid(t) && Micro(t) == micro
  {
    Time(micro / 1000000, micro % 1000000)
  }

  lemma GapDecides(stamps: seq<Time>, threshold: int)
    requires |stamps| == 4 && Ordered(stamps)
    ensures TrueGap(stamps) >= 1000 * threshold + 1999 ==> Verdict(stamps, threshold) == Detected
    ensures TrueGap(stamps) <= 1000 * threshold - 999 ==> Verdict(stamps, threshold) == NotDetected
  {
    forall i | 0 <= i < 4 ensures TimeDiffMilli(stamps[i], Time(0, 0)) == Micro(stamps[i]) / 1000 {
      MilliTruncates(stamps[i]);
    }
  }

  /** The verdict over stamps taken at these microseconds. */
  lemma VerdictAt(a: int, b: int, c: int, d: int, threshold: int)
    ensures Verdict([At(a), At(b), At(c), At(d)], threshold) ==
              if (d / 1000 - c / 1000) - (b / 1000 - a / 1000) > threshold then Detected else NotDetected
  {
    MilliTruncates(At(a)); MilliTruncates(At(b)); MilliTruncates(At(c)); MilliTruncates(At(d));
  }

  lemma Thousands(x: int, k: int, r: nat)
    requires r < 1000 && x == 1000 * k + r
    ensures x / 1000 == k
  {
  }

  /** A slightly smaller gap can go undetected. */
  lemma CanMiss(threshold: int, gap: int) returns (stamps: seq<Time>)
    requires gap <= 1000 * threshold + 1998
    ensures |stamps| == 4 && Ordered(stamps) && TrueGap(stamps) == gap && Verdict(stamps, threshold) == NotDetected
  {
    var z, r := (1998 - gap) / 1000, (1998 - gap) % 1000;
    var k := 1 + if z < 0 then -z else z;
    var a, b := 999 - r, 1000 * k;
    var d := b + gap + b - a;
    assert d == 1000 * (2 * k - z) + 999;
    Thousands(d, 2 * k - z, 999);
    Thousands(b, k, 0);
    stamps := [At(a), At(b), At(b), At(d)];
    hide At;
    VerdictAt(a, b, b, d, threshold);
  }

  /** A slightly larger gap can raise the alarm. */
  lemma CanAlarm(threshold: int, gap: int) returns (stamps: seq<Time>)
    requires gap >= 1000 * threshold - 998
    ensures |stamps| == 4 && Ordered(stamps) && TrueGap(stamps) == gap && Verdict(stamps, threshold) == Detected
  {
    var j, r := (gap + 1998) / 1000, (gap + 1998) % 1000;
    assert gap == 1000 * j + r - 1998;
    var k := 1 + if j < 0 then -j else j;
    stamps := Apart(k, j, r);
    hide TrueGap, Ordered, Apart, Verdict;
    ApartGap(k, j, r);
    ApartVerdict(k, j, r, threshold);
  }

  /** Stamps whose truncated difference is `j`, with the true one as far below as the remainder `r` allows. */
  function Apart(k: nat, j: int, r: nat): (stamps: seq<Time>)
    requires r < 1000 && k >= 1 && k + j >= 1
    ensures |stamps| == 4
  {
    [At(0), At(1000 * k + 999 - r), At(1000 * k + 1999), At(2000 * k + 1000 * j + 1000)]
  }

  lemma ApartGap(k: nat, j: int, r: nat)
    requires r < 1000 && k >= 1 && k + j >= 1
    ensures Ordered(Apart(k, j, r)) && TrueGap(Apart(k, j, r)) == 1000 * j + r - 1998
  {
    hide At, Micro;
  }

  lemma ApartVerdict(k: nat, j: int, r: nat, threshold: int)
    requires r < 1000 && k >= 1 && k + j >= 1
    ensures Verdict(Apart(k, j, r), threshold) == if j > threshold then Detected else NotDetected
  {
    hide At, Verdict;
    var b, c, d := 1000 * k + 999 - r, 1000 * k + 1999, 2000 * k + 1000 * j + 1000;
    Thousands(b, k, 999 - r);
    Thousands(c, k + 1, 999);
    Thousands(d, 2 * k + 1 + j, 0);
    VerdictAt(0, b, c, d, threshold);
  }

  /**
   * A true gap is detected whatever the stamps exactly from `threshold` milliseconds and 1999 microseconds on, and
   * never detected exactly up to `threshold` milliseconds less 999 microseconds.
   */
  lemma DetectionBounds(threshold: int, gap: int)
    ensures (forall s | |s| == 4 && Ordered(s) && TrueGap(s) == gap :: Verdict(s, threshold) == Detected) <==>
              gap >= 1000 * threshold + 1999
    ensures (forall s | |s| == 4 && Ordered(s) && TrueGap(s) == gap :: Verdict(s, threshold) == NotDetected) <==>
              gap <= 1000 * threshold - 999
  {
    hide Verdict, TrueGap, Ordered;
    forall s | |s| == 4 && Ordered(s) && TrueGap(s) == gap
      ensures gap >= 1000 * threshold + 1999 ==> Verdict(s, threshold) == Detected
      ensures gap <= 1000 * threshold - 999 ==> Verdict(s, threshold) == NotDetected
    {
      GapDecides(s, threshold);
    }
    if gap < 1000 * threshold + 1999 {
      var s := CanMiss(threshold, gap);
    }
    if gap > 1000 * threshold - 999 {
      var s := CanAlarm(threshold, gap);
    }
  }

  /** Silence for a whole second beyond the timeout always ends the wait; no more than the timeout never does. */
  lemma SilenceBounds(now: Time, began: Time, timeout: int)
    requires Valid(now) && Valid(began)
    ensures Micro(now) - Micro(began) >= 1000000 * (timeout + 1) ==> TimeDiffSec(now, began) > timeout
    ensures Micro(now) - Micro(began) <= 1000000 * timeout ==> TimeDiffSec(now, began) <= timeout
  {
    assert now.usec / 1000000 == 0 && began.usec / 1000000 == 0;
    var d := now.sec - began.sec;
    assert TimeDiffSec(now, began) == d;
    assert Micro(now) - Micro(began) == 1000000 * d + (now.usec - began.usec);
    Whole(d, now.usec - began.usec, timeout);
  }

  lemma Whole(d: int, f: int, t: int)
    requires -1000000 < f < 1000000
    ensures 1000000 * d + f >= 1000000 * (t + 1) ==> d > t
    ensures 1000000 * d + f <= 1000000 * t ==> d <= t
  {
  }

  lemma Enough(packets: seq<Packet>, clock: seq<Time>, n: nat)
    requires Trace(packets, clock) && 0 < n <= |packets|
    ensures Readings(packets, clock, n - 1) < Readings(packets, clock, n) <= |clock|
  {
    hide RstAt;
  }

  /** With a clock that never goes back the stamps come out in order. */
  lemma {:induction false} StampsOrdered(packets: seq<Packet>, clock: seq<Time>, n: nat)
    requires Trace(packets, clock) && n <= |packets| && Ordered(clock)
    ensures Ordered(Stamps(packets, clock, n))
    ensures var stamps := Stamps(packets, clock, n);
            stamps != [] ==> Micro(stamps[|stamps| - 1]) <= Micro(Now(packets, clock, n))
  {
    hide IsRst, Micro, Valid, Trace, RstAt;
    if n > 0 {
      StampsOrdered(packets, clock, n - 1);
      Enough(packets, clock, n);
      var r := Readings(packets, clock, n - 1);
      ClockForward(clock, r - 1, Readings(packets, clock, n) - 1);
      ClockForward(clock, r, Readings(packets, clock, n) - 1);
    }
  }

  lemma {:induction false} ClockForward(clock: seq<Time>, i: nat, j: nat)
    requires Ordered(clock) && i <= j < |clock|
    ensures Micro(clock[i]) <= Micro(clock[j])
  {
    hide Micro;
    if i < j { ClockForward(clock, i, j - 1); }
  }

  /** What a run's verdict says about the four RSTs that were timed. */
  lemma RunDetects(packets: seq<Packet>, clock: seq<Time>, timeout: int, threshold: int, n: nat, outcome: Outcome)
    requires Trace(packets, clock) && Ordered(clock) && Ends(packets, clock, timeout, threshold, n, outcome)
    ensures outcome == Detected || outcome == NotDetected ==>
              && n < |packets| && Rsts(packets, clock, n) == 3 && RstAt(packets, n)
              && var stamps := Stamps(packets, clock, n + 1);
              && |stamps| == 4
              && (TrueGap(stamps) >= 1000 * (threshold + 2) ==> outcome == Detected)
              && (TrueGap(stamps) <= 1000 * (threshold - 1) ==> outcome == NotDetected)
    ensures outcome == Insufficient ==>
              && Rsts(packets, clock, n) <= 3
              && Micro(Now(packets, clock, n)) - Micro(Began(packets, clock, n)) > 1000000 * timeout
  {
    hide IsRst, Verdict, TrueGap, TimeDiffSec, Ordered, Stamps, Now, Began, Readings, RstAt;
    if outcome == Detected || outcome == NotDetected {
      StampsOrdered(packets, clock, n + 1);
      GapDecides(Stamps(packets, clock, n + 1), threshold);
    }
    if outcome == Insufficient {
      BeganValid(packets, clock, n);
      SilenceBounds(Now(packets, clock, n), Began(packets, clock, n), timeout);
    }
  }

  lemma {:induction false} BeganValid(packets: seq<Packet>, clock: seq<Time>, n: nat)
    requires Trace(packets, clock) && n <= |packets|
    ensures Valid(Now(packets, clock, n)) && Valid(Began(packets, clock, n))
  {
    hide IsRst;
    if n > 0 { BeganValid(packets, clock, n - 1); }
  }
}

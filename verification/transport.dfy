/** The serial link and the millisecond clock as the bootloader sees them,
    and its timeout-bounded receive loop `uart_receive_bytes`.

    The UART is modelled as the ordered list of bytes the host sends, each
    stamped with the millisecond from which the receiver reports it ready.
    Reading takes no time; waiting advances the clock.  The clock is an
    unbounded millisecond count. */
module Transport {
  import opened Bytes

  /** A byte on the line, ready to be read from millisecond `at` on. */
  datatype Arrival = Arrival(at: nat, value: byte)

  /** Everything the host sends, in order. */
  type Link = seq<Arrival>

  /** The byte values on a stretch of the line. */
  function Values(link: Link): (vs: seq<byte>)
    ensures |vs| == |link|
    ensures forall i | 0 <= i < |link| :: vs[i] == link[i].value
  {
    seq(|link|, i requires 0 <= i < |link| => link[i].value)
  }

  /** The first `n` bytes on the line are all ready by millisecond `deadline`. */
  predicate ArrivesBy(link: Link, n: nat, deadline: nat)
  {
    n <= |link| && forall i | 0 <= i < n :: link[i].at <= deadline
  }

  /** Exactly the first `k` bytes are ready by `deadline`: the one after them,
      if any, is late. */
  predicate StallsAfter(link: Link, k: nat, deadline: nat)
  {
    ArrivesBy(link, k, deadline) && (k == |link| || link[k].at > deadline)
  }

  /** What a call of `uart_receive_bytes` leaves behind: on success the bytes
      stored in the buffer; in both cases the unread rest of the line and the
      clock on return. */
  datatype Reception =
    | Got(data: seq<byte>, rest: Link, now: nat)
    | TimedOut(rest: Link, now: nat)

  /** Receiving `length` bytes from millisecond `now` on, giving up at the
      first millisecond after `deadline`.  It succeeds exactly when the first
      `length` bytes are all ready by the deadline. */
  function ReceiveUntil(link: Link, now: nat, length: nat, deadline: nat): (r: Reception)
    ensures r.Got? <==> ArrivesBy(link, length, deadline)
    ensures r.Got? ==> |r.data| == length
    ensures r.TimedOut? ==> r.now == deadline + 1
    decreases length
  {
    if length == 0 then Got([], link, now)
    else if |link| == 0 || link[0].at > deadline then TimedOut(link, deadline + 1)
    else
      var r := ReceiveUntil(link[1..], Later(now, link[0].at), length - 1, deadline);
      assert ArrivesBy(link, length, deadline) <==> ArrivesBy(link[1..], length - 1, deadline) by {
        assert forall i | 1 <= i < length && i < |link| :: link[i] == link[1..][i - 1];
      }
      if r.Got? then Got([link[0].value] + r.data, r.rest, r.now) else r
  }

  /** The later of two instants. */
  function Later(a: nat, b: nat): nat
  {
    if a < b then b else a
  }

  /** On success the buffer holds the values of the first `length` bytes and
      the line continues right after them. */
  lemma {:induction false} ReceivedBytes(link: Link, now: nat, length: nat, deadline: nat)
    requires ReceiveUntil(link, now, length, deadline).Got?
    ensures ReceiveUntil(link, now, length, deadline).data == Values(link[..length])
    ensures ReceiveUntil(link, now, length, deadline).rest == link[length..]
    decreases length
  {
    if length > 0 {
      ReceivedBytes(link[1..], Later(now, link[0].at), length - 1, deadline);
      assert link[..length] == [link[0]] + link[1..][..length - 1];
      assert link[length..] == link[1..][length - 1..];
    }
  }

  /** On success the clock reads the later of the call time and the
      arrival of the last byte needed. */
  lemma {:induction false} ReceivedAt(link: Link, now: nat, length: nat, deadline: nat)
    requires ReceiveUntil(link, now, length, deadline).Got?
    ensures var t := ReceiveUntil(link, now, length, deadline).now;
      now <= t
      && (forall i | 0 <= i < length :: link[i].at <= t)
      && (t == now || exists i | 0 <= i < length :: t == link[i].at)
    decreases length
  {
    if length > 0 {
      var t0 := Later(now, link[0].at);
      ReceivedAt(link[1..], t0, length - 1, deadline);
      var t := ReceiveUntil(link, now, length, deadline).now;
      assert forall i | 1 <= i < length :: link[i] == link[1..][i - 1];
      if t != t0 {
        var i :| 0 <= i < length - 1 && t == link[1..][i].at;
        assert t == link[i + 1].at;
      }
    }
  }

  /** The clock after reading `s` from millisecond `now` on, each byte at
      the later of the current time and its arrival. */
  function Latest(now: nat, s: Link): nat
    decreases |s|
  {
    if |s| == 0 then now else Latest(Later(now, s[0].at), s[1..])
  }

  /** On success the clock reads `Latest` of the bytes received. */
  lemma {:induction false} ReceivedClock(link: Link, now: nat, length: nat, deadline: nat)
    requires ReceiveUntil(link, now, length, deadline).Got?
    ensures ReceiveUntil(link, now, length, deadline).now == Latest(now, link[..length])
    decreases length
  {
    if length > 0 {
      ReceivedClock(link[1..], Later(now, link[0].at), length - 1, deadline);
      assert link[..length][1..] == link[1..][..length - 1];
    }
  }

  /** Reading never moves the clock back. */
  lemma {:induction false} LatestNotEarlier(now: nat, s: Link)
    ensures Latest(now, s) >= now
    decreases |s|
  {
    if |s| > 0 {
      LatestNotEarlier(Later(now, s[0].at), s[1..]);
    }
  }

  /** Bytes that were all ready by `now` are read without waiting. */
  lemma {:induction false} LatestOfReady(now: nat, s: Link)
    requires forall i | 0 <= i < |s| :: s[i].at <= now
    ensures Latest(now, s) == now
    decreases |s|
  {
    if |s| > 0 {
      assert forall i | 0 <= i < |s| - 1 :: s[1..][i] == s[i + 1];
      LatestOfReady(now, s[1..]);
    }
  }

  /** On a timeout the bytes that were ready are gone from the line, and the
      one after them was late. */
  lemma {:induction false} TimedOutRest(link: Link, now: nat, length: nat, deadline: nat)
    requires ReceiveUntil(link, now, length, deadline).TimedOut?
    ensures exists k | 0 <= k < length ::
      StallsAfter(link, k, deadline) && ReceiveUntil(link, now, length, deadline).rest == link[k..]
    decreases length
  {
    var r := ReceiveUntil(link, now, length, deadline);
    if |link| == 0 || link[0].at > deadline {
      assert StallsAfter(link, 0, deadline) && r.rest == link[0..];
    } else {
      TimedOutRest(link[1..], Later(now, link[0].at), length - 1, deadline);
      var k :| 0 <= k < length - 1 && StallsAfter(link[1..], k, deadline) && r.rest == link[1..][k..];
      assert forall i | 1 <= i <= k :: link[i] == link[1..][i - 1];
      assert StallsAfter(link, k + 1, deadline) && r.rest == link[k + 1..];
    }
  }

  /** `uart_receive_bytes(buffer, length, timeout_ms)` called at millisecond
      `start`: it succeeds once `length` bytes are stored and fails as soon as
      more than `timeout_ms` milliseconds have passed. */
  function Receive(link: Link, start: nat, length: nat, timeout: nat): (r: Reception)
  {
    ReceiveUntil(link, start, length, start + timeout)
  }

  /** `r` with `prefix` stored in front of what it received. */
  function Prepend(prefix: seq<byte>, r: Reception): Reception
  {
    match r
    case Got(data, rest, now) => Got(prefix + data, rest, now)
    case TimedOut(rest, now) => r
  }

  /** The polling loop itself: each millisecond, give up once more than
      `timeout` milliseconds have passed, otherwise store the next byte if it
      is ready.  It computes `Receive`. */
  method ReceiveBytes(link: Link, start: nat, length: nat, timeout: nat) returns (r: Reception)
    ensures r == Receive(link, start, length, timeout)
  {
    var now := start;
    var received: seq<byte> := [];
    var pending := link;
    ghost var deadline := start + timeout;
    while |received| < length
      invariant start <= now <= deadline + 1
      invariant |received| <= length
      invariant now <= deadline || |pending| == 0 || pending[0].at > deadline
      invariant Receive(link, start, length, timeout)
        == Prepend(received, ReceiveUntil(pending, now, length - |received|, deadline))
      decreases length - |received|, deadline + 1 - now
    {
      if now - start > timeout {
        return TimedOut(pending, now);
      }
      if |pending| > 0 && pending[0].at <= now {
        ReadReady(received, pending, now, length - |received|, deadline);
        received := received + [pending[0].value];
        pending := pending[1..];
      } else {
        WaitIdle(pending, now, length - |received|, deadline);
        now := now + 1;
      }
    }
    assert received + [] == received;
    r := Got(received, pending, now);
  }

  /** Reading a ready byte moves it from the line into the buffer. */
  lemma ReadReady(received: seq<byte>, pending: Link, now: nat, n: nat, deadline: nat)
    requires n > 0 && |pending| > 0 && pending[0].at <= now <= deadline
    ensures Prepend(received, ReceiveUntil(pending, now, n, deadline))
      == Prepend(received + [pending[0].value], ReceiveUntil(pending[1..], now, n - 1, deadline))
  {
    var r := ReceiveUntil(pending[1..], now, n - 1, deadline);
    if r.Got? {
      assert received + ([pending[0].value] + r.data) == received + [pending[0].value] + r.data;
    }
  }

  /** Waiting one millisecond while nothing is ready changes nothing. */
  lemma WaitIdle(pending: Link, now: nat, n: nat, deadline: nat)
    requires n > 0 && now <= deadline
    requires |pending| == 0 || pending[0].at > now
    ensures ReceiveUntil(pending, now, n, deadline) == ReceiveUntil(pending, now + 1, n, deadline)
  {
  }
}

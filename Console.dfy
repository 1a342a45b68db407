/// The serial console as the clear prompt of `Storage<T>::init` sees it, and the
/// bounded yes/no poll itself.
///
/// Time is not modelled as time: each one-second `delay` of the poll is one tick
/// of `SerialPort.clock`, and what arrives on the line during the tick numbered
/// `t` is `arrivals[t]` (nothing, once `arrivals` is exhausted).
module Console {

  /** Times to try getting a response to clear the storage area. */
  const MAX_TRIES: nat := 5

  /** Input checks the poll really makes: its counter is pre-incremented and
      compared with MAX_TRIES before each check, so the last try only gives up. */
  const CHECKS: nat := MAX_TRIES - 1

  /** C `tolower` in the "C" locale: upper-case ASCII letters become lower case,
      every other character is returned as it is. */
  function ToLower(c: char): (r: char)
    ensures !('A' <= r <= 'Z')
    ensures 'A' <= c <= 'Z' ==> 'a' <= r <= 'z' && r as int - 'a' as int == c as int - 'A' as int
    ensures !('A' <= c <= 'Z') ==> r == c
  {
    if 'A' <= c <= 'Z' then (c as int - 'A' as int + 'a' as int) as char else c
  }

  /** What arrives on the line during tick `t`. */
  function ArrivingAt(arrivals: seq<seq<char>>, t: nat): seq<char>
  {
    if t < |arrivals| then arrivals[t] else []
  }

  /** The receive buffer after `k` more ticks from tick `clock`, when nothing is
      read meanwhile: what was pending followed by everything that arrived. */
  function Received(rx: seq<char>, arrivals: seq<seq<char>>, clock: nat, k: nat): (s: seq<char>)
    ensures rx <= s
  {
    if k == 0 then rx else Received(rx, arrivals, clock, k - 1) + ArrivingAt(arrivals, clock + k - 1)
  }

  /** The answer the poll settles on, stated without its loop: the first
      character to reach the buffer before the last check, lower-cased, and 'n'
      when none arrives in time. */
  function Answer(rx: seq<char>, arrivals: seq<seq<char>>, clock: nat): char
  {
    var s := Received(rx, arrivals, clock, CHECKS - 1);
    if s == [] then 'n' else ToLower(s[0])
  }

  /** Serial receive side. `rx` holds the characters received and not yet read. */
  class SerialPort {
    var rx: seq<char>
    const arrivals: seq<seq<char>>
    var clock: nat

    constructor (pending: seq<char>, schedule: seq<seq<char>>)
      ensures rx == pending && arrivals == schedule && clock == 0
    {
      rx, arrivals, clock := pending, schedule, 0;
    }

    /** `Serial.available()`, as a truth value. */
    predicate Available()
      reads this
    {
      rx != []
    }

    /** `Serial.read()`; the prompt calls it only when input is available. */
    method Read() returns (c: char)
      requires rx != []
      modifies this`rx
      ensures c == old(rx[0]) && rx == old(rx[1..])
    {
      c := rx[0];
      rx := rx[1..];
    }

    /** `delay(1000)`: one tick passes and what arrives during it is received. */
    method Delay()
      modifies this`rx, this`clock
      ensures clock == old(clock) + 1
      ensures rx == old(rx) + ArrivingAt(arrivals, old(clock))
    {
      rx := rx + ArrivingAt(arrivals, clock);
      clock := clock + 1;
    }

    /** Consume remaining input: read until nothing is available. */
    method Drain()
      modifies this`rx
      ensures rx == []
    {
      while Available()
        decreases |rx|
      {
        var _ := Read();
      }
    }
  }

  /** The "Clear storage? [y/n]" poll: at most CHECKS checks for input, one tick
      between checks, default answer 'n'. The answer is the lower-cased first
      character received, and the rest of the input is then consumed. */
  method AskToClear(serial: SerialPort) returns (ans: char)
    modifies serial
    ensures ans == Answer(old(serial.rx), serial.arrivals, old(serial.clock))
    ensures old(serial.clock) <= serial.clock <= old(serial.clock) + CHECKS
    ensures Received(old(serial.rx), serial.arrivals, old(serial.clock), CHECKS - 1) == [] ==>
              ans == 'n' && serial.clock == old(serial.clock) + CHECKS &&
              serial.rx == Received(old(serial.rx), serial.arrivals, old(serial.clock), CHECKS)
    ensures Received(old(serial.rx), serial.arrivals, old(serial.clock), CHECKS - 1) != [] ==>
              var waited := serial.clock - old(serial.clock);
              serial.rx == [] && waited < CHECKS &&
              Received(old(serial.rx), serial.arrivals, old(serial.clock), waited) != [] &&
              (waited == 0 || Received(old(serial.rx), serial.arrivals, old(serial.clock), waited - 1) == [])
  {
    ghost var rx0, t0 := serial.rx, serial.clock;
    var count := 0;
    ans := '\0';
    while true
      invariant 0 <= count < MAX_TRIES
      invariant serial.clock == t0 + count
      invariant serial.rx == Received(rx0, serial.arrivals, t0, count)
      invariant count > 0 ==> Received(rx0, serial.arrivals, t0, count - 1) == []
      decreases MAX_TRIES - count
    {
      count := count + 1;
      if MAX_TRIES == count {
        ans := 'n';
        break;
      }
      if serial.Available() {
        ghost var seen := serial.rx;
        var c := serial.Read();
        ans := ToLower(c);
        serial.Drain();
        FirstReplyDecides(rx0, serial.arrivals, t0, count - 1);
        break;
      }
      serial.Delay();
    }
  }

  /** The buffer only grows while nothing is read. */
  lemma {:induction false} ReceivedPrefix(rx: seq<char>, arrivals: seq<seq<char>>, clock: nat, j: nat, k: nat)
    requires j <= k
    ensures Received(rx, arrivals, clock, j) <= Received(rx, arrivals, clock, k)
    decreases k - j
  {
    if j < k {
      ReceivedPrefix(rx, arrivals, clock, j, k - 1);
    }
  }

  /** The first reply the checks see decides: if input is first present at
      check `k` (`k < CHECKS`), the answer is its first character, lower-cased. */
  lemma FirstReplyDecides(rx: seq<char>, arrivals: seq<seq<char>>, clock: nat, k: nat)
    requires k < CHECKS
    requires Received(rx, arrivals, clock, k) != []
    ensures Received(rx, arrivals, clock, CHECKS - 1) != []
    ensures Answer(rx, arrivals, clock) == ToLower(Received(rx, arrivals, clock, k)[0])
  {
    ReceivedPrefix(rx, arrivals, clock, k, CHECKS - 1);
  }

  /** Nothing pending and nothing arriving for `k` ticks: still nothing received. */
  lemma {:induction false} NothingReceived(rx: seq<char>, arrivals: seq<seq<char>>, clock: nat, k: nat)
    requires rx == []
    requires forall t :: clock <= t < clock + k ==> ArrivingAt(arrivals, t) == []
    ensures Received(rx, arrivals, clock, k) == []
  {
    if k > 0 {
      NothingReceived(rx, arrivals, clock, k - 1);
      assert ArrivingAt(arrivals, clock + k - 1) == [];
      assert Received(rx, arrivals, clock, k)
          == Received(rx, arrivals, clock, k - 1) + ArrivingAt(arrivals, clock + k - 1);
    }
  }

  /** Timeout: when nothing is pending and nothing arrives before the last
      check, the answer defaults to 'n'. */
  lemma TimeoutAnswersNo(rx: seq<char>, arrivals: seq<seq<char>>, clock: nat)
    requires rx == []
    requires forall t :: clock <= t < clock + CHECKS - 1 ==> ArrivingAt(arrivals, t) == []
    ensures Answer(rx, arrivals, clock) == 'n'
  {
    NothingReceived(rx, arrivals, clock, CHECKS - 1);
  }

  /** Clearing is chosen exactly when the first character received in time is
      'y' or 'Y'. */
  lemma ClearChosenIff(rx: seq<char>, arrivals: seq<seq<char>>, clock: nat)
    ensures Answer(rx, arrivals, clock) == 'y' <==>
            var s := Received(rx, arrivals, clock, CHECKS - 1);
            s != [] && (s[0] == 'y' || s[0] == 'Y')
  {
  }

  /** A reply that arrives only during the last wait is never checked for: the
      answer is 'n', and the reply stays in the receive buffer afterwards. */
  lemma LateReplyIgnored()
    ensures Answer([], [[], [], [], ['y']], 0) == 'n'
    ensures Received([], [[], [], [], ['y']], 0, CHECKS) == ['y']
  {
    var arrivals: seq<seq<char>> := [[], [], [], ['y']];
    assert Received([], arrivals, 0, 1) == [];
    assert Received([], arrivals, 0, 2) == [];
    assert Received([], arrivals, 0, 3) == [];
  }
}

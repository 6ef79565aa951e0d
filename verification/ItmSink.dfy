/** `sink_itm.c`: writing bytes to an ITM stimulus port with a bounded wait. */
module ItmSink {
  import opened Bytes

  /** How often the port reads as busy before it first reads as ready, for each
      byte to be written: the hardware, as an oracle. */
  type Polls = seq<nat>

  /** The byte is given up on when the wait ends with its countdown at exactly
      zero. With a timeout of zero that is a port ready at once; a busy port takes
      the countdown past zero, and the byte is written to it. */
  predicate GivesUp(timeout: nat, busy: nat) {
    if timeout == 0 then busy == 0 else timeout <= busy
  }

  /** How many leading bytes are written. */
  function Accepted(timeout: nat, polls: Polls): (n: nat)
    ensures n <= |polls|
  {
    if polls == [] || GivesUp(timeout, polls[0]) then 0 else 1 + Accepted(timeout, polls[1..])
  }

  class Port {
    var written: seq<byte>

    constructor ()
      ensures written == []
    {
      written := [];
    }

    /** Whatever the hardware does, a prefix of the data reaches the port, and the
        count says which: up to the first byte given up on. */
    method WritePort(data: seq<byte>, timeout: nat, polls: Polls) returns (n: nat)
      requires |polls| == |data|
      modifies this
      ensures n <= |data| && written == old(written) + data[..n]
      ensures forall i :: 0 <= i < n ==> !GivesUp(timeout, polls[i])
      ensures n < |data| ==> GivesUp(timeout, polls[n])
      ensures n == Accepted(timeout, polls)
    {
      n := 0;
      for i := 0 to |data|
        invariant n == i && written == old(written) + data[..i]
        invariant forall j :: 0 <= j < i ==> !GivesUp(timeout, polls[j])
        invariant Accepted(timeout, polls) == i + Accepted(timeout, polls[i..])
      {
        var left: int := timeout;
        var seen := 0;
        while seen < polls[i]
          invariant seen <= polls[i] && left == timeout - seen
          invariant seen > 0 ==> left > 0
          decreases polls[i] - seen
        {
          seen := seen + 1;
          left := left - 1;
          if left <= 0 {
            break;
          }
        }
        if left == 0 {
          break;
        }
        assert polls[i..][1..] == polls[i + 1..];
        written := written + [data[i]];
        n := n + 1;
      }
    }
  }

  /** Everything is written exactly when no byte waits as long as the timeout; and
      at a timeout of zero, which the help text calls "immediate drop if not
      ready", exactly when no byte finds the port ready. */
  lemma {:induction false} AllWritten(timeout: nat, polls: Polls)
    ensures Accepted(timeout, polls) == |polls|
      <==> forall i :: 0 <= i < |polls| ==> if timeout == 0 then polls[i] > 0 else polls[i] < timeout
  {
    if polls != [] {
      AllWritten(timeout, polls[1..]);
      assert forall i {:trigger polls[i]} :: 0 < i < |polls| ==> polls[1..][i - 1] == polls[i];
    }
  }
}

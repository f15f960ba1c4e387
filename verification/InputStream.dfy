/**
 Reading opaque payloads: filling a buffer from an input context that hands out its payload in
 chunks of its own choosing, and collecting a whole payload of any length.

 The context is any implementation that delivers at least one byte or announces the end on each
 successful call. It chooses the sizes freely, so what is proved holds for every way of chopping.
 */
module InputStream {
  import opened Ids

  /**
   An input context over a payload; `rest` is what has not been delivered yet. How a context fails
   and when it announces the end are properties of its own.
   */
  class InputContext {
    var rest: seq<bv8>
    var delivered: nat
    /** The call that has delivered so many bytes in all fails, and so do all later ones. */
    const failsAfter: Option<nat>
    /** The end is announced one call after the last bytes, not with them. */
    const late: bool

    constructor (payload: seq<bv8>, failsAfter: Option<nat>, late: bool)
      ensures rest == payload && delivered == 0 && this.failsAfter == failsAfter && this.late == late
    {
      rest, delivered, this.failsAfter, this.late := payload, 0, failsAfter, late;
    }

    /** Delivering another `n` bytes, or what there is, comes to the failing spot. */
    predicate BreaksWithin(n: nat)
      reads this
    {
      failsAfter.Some? && delivered + Least(n, |rest|) >= failsAfter.value
    }

    /**
     One chunk, copied to the buffer from offset `at`. It is nonempty, unless the end is announced,
     no room was offered or the call fails; a failing call may still have delivered bytes.
     */
    method SomeBytes(buffer: array<bv8>, at: nat) returns (result: int, n: nat, finished: bool)
      requires at <= buffer.Length
      modifies this, buffer
      ensures at + n <= buffer.Length && n <= |old(rest)|
      ensures buffer[..at] == old(buffer[..at])
      ensures buffer[at..at + n] == old(rest)[..n] && rest == old(rest)[n..] && delivered == old(delivered) + n
      ensures result == OK <==> !BreaksWithin(0)
      ensures result == OK && !finished && at < buffer.Length ==> n > 0
      ensures finished <==> rest == [] && (late ==> n == 0)
      ensures n > 0 ==> !old(BreaksWithin(0))
    {
      var limit := Least(buffer.Length - at, |rest|);
      if failsAfter.Some? {
        limit := Least(limit, if delivered < failsAfter.value then failsAfter.value - delivered else 0);
      }
      n :| n <= limit && (limit > 0 ==> n > 0);
      for i := 0 to n
        invariant rest == old(rest) && delivered == old(delivered)
        invariant buffer[..at] == old(buffer[..at])
        invariant forall j :: 0 <= j < i ==> buffer[at + j] == rest[j]
      {
        buffer[at + i] := rest[i];
      }
      rest, delivered := rest[n..], delivered + n;
      result := if BreaksWithin(0) then ERR else OK;
      finished := rest == [] && (late ==> n == 0);
    }
  }

  lemma MoreDelivered(payload: seq<bv8>, at: nat, n: nat)
    requires at + n <= |payload|
    ensures payload[..at + n] == payload[..at] + payload[at..][..n]
    ensures payload[at..][n..] == payload[at + n..]
  {
  }

  /**
   Fills the buffer as far as the payload goes. That works unless the context fails on the way;
   then exactly the next min(buffer, remaining) bytes were delivered, the end was not announced
   early, and a buffer left partly empty means that it was announced.
   */
  method GetBytes(context: InputContext, buffer: array<bv8>)
    returns (result: int, bytesRead: nat, finished: bool)
    modifies context, buffer
    ensures bytesRead <= buffer.Length && bytesRead <= |old(context.rest)|
    ensures buffer[..bytesRead] == old(context.rest)[..bytesRead]
    ensures context.rest == old(context.rest)[bytesRead..] && context.delivered == old(context.delivered) + bytesRead
    ensures result == OK <==> !old(context.BreaksWithin(buffer.Length))
    ensures result == OK ==>
      bytesRead == if buffer.Length < |old(context.rest)| then buffer.Length else |old(context.rest)|
    ensures result == OK && finished ==> context.rest == []
    ensures result == OK && !finished ==> bytesRead == buffer.Length
    ensures result == OK && 0 < bytesRead == buffer.Length ==> (finished <==> context.rest == [] && !context.late)
  {
    var at: nat := 0;
    while true
      invariant at <= buffer.Length && at <= |old(context.rest)|
      invariant at > 0 ==> at < buffer.Length && !context.BreaksWithin(0)
      invariant buffer[..at] == old(context.rest)[..at]
      invariant context.rest == old(context.rest)[at..] && context.delivered == old(context.delivered) + at
      decreases buffer.Length - at, 0
    {
      var n;
      result, n, finished := context.SomeBytes(buffer, at);
      MoreDelivered(old(context.rest), at, n);
      assert buffer[..at + n] == buffer[..at] + buffer[at..at + n];
      at := at + n;
      if result != OK || finished || at == buffer.Length {
        return result, at, finished;
      }
    }
  }

  const BLOCK: nat := 1024

  /**
   Collects a whole payload into one growing block, for which there are `room` bytes of memory. That
   works exactly if the context does not fail before the end and the payload fits. The result is then
   the payload, nothing more, nothing less, and nothing is left behind; any error yields no data at all.
   */
  method FetchBytes(context: InputContext, room: nat) returns (result: int, data: Option<seq<bv8>>)
    modifies context
    ensures result == OK <==> !old(context.BreaksWithin(|context.rest|)) && |old(context.rest)| <= room
    ensures result == OK && old(context.rest) != [] ==> data == Some(old(context.rest))
    ensures result == OK ==> context.rest == []
    ensures old(context.rest) == [] || result != OK ==> data == None
  {
    ghost var payload, start := context.rest, context.delivered;
    var tmp := new bv8[BLOCK];
    var finished := false;
    data := None;
    var size: nat := 0;
    while !finished
      invariant fresh(tmp) && tmp.Length == BLOCK
      invariant size <= room && size <= |payload| && context.rest == payload[size..] && context.delivered == start + size
      invariant data == (if size == 0 then None else Some(payload[..size]))
      invariant finished ==> context.rest == [] && !context.BreaksWithin(0)
      decreases |payload| - size, !finished
    {
      var n;
      result, n, finished := GetBytes(context, tmp);
      if result != OK {
        return result, None;
      }
      if size + n == 0 {
        return OK, None;
      }
      if size + n > room {
        return ERR_INTERNAL, None;
      }
      var block := (if data.Some? then data.value else []) + tmp[..n];
      MoreDelivered(payload, size, n);
      data := Some(block);
      size := size + n;
    }
    assert payload[..size] == payload;
    result := OK;
  }
}

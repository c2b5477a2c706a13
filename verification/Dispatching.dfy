/**
 The loop that all five module hooks share: ask the modules in order, skip those without the callback, stop at the
 first error. A slot is None for a module that is skipped, else what its callback returns.
 */
module Dispatching {
  import opened Text
  import opened Events

  type Slot = Option<Err>

  predicate Fails(slot: Slot) {
    slot.Some? && slot.value != UL_OK
  }

  /** The first slot that fails; the number of slots when none does. */
  function FirstFailure(slots: seq<Slot>): (i: nat)
    ensures i <= |slots|
    ensures i < |slots| ==> Fails(slots[i])
    ensures forall k :: 0 <= k < i ==> !Fails(slots[k])
  {
    if slots == [] || Fails(slots[0]) then 0 else 1 + FirstFailure(slots[1..])
  }

  function Result(slots: seq<Slot>): Err {
    var i := FirstFailure(slots);
    if i == |slots| then UL_OK else slots[i].value
  }

  /** The calls made by the first `n` rounds of the loop. */
  function CallsUpTo(slots: seq<Slot>, call: Call, n: nat): seq<Event>
    requires n <= |slots|
  {
    if n == 0 then []
    else CallsUpTo(slots, call, n - 1) + if slots[n - 1].Some? then [Called(n - 1, call)] else []
  }

  function Rounds(slots: seq<Slot>): (n: nat)
    ensures n <= |slots|
  {
    var i := FirstFailure(slots);
    if i == |slots| then i else i + 1
  }

  /** All calls of one dispatch. */
  function Calls(slots: seq<Slot>, call: Call): seq<Event> {
    CallsUpTo(slots, call, Rounds(slots))
  }

  lemma FirstFailureUnique(slots: seq<Slot>, i: nat)
    requires i <= |slots| && forall k :: 0 <= k < i ==> !Fails(slots[k])
    requires i < |slots| ==> Fails(slots[i])
    ensures FirstFailure(slots) == i
  {
  }

  /** What the loop has done when it stops: at the first failure, or behind the last slot. */
  lemma Stopped(slots: seq<Slot>, call: Call, i: nat)
    requires i <= |slots| && forall k :: 0 <= k < i ==> !Fails(slots[k])
    requires i < |slots| ==> Fails(slots[i])
    ensures var n := if i < |slots| then i + 1 else i;
            Rounds(slots) == n && Calls(slots, call) == CallsUpTo(slots, call, n)
    ensures Result(slots) == if i < |slots| then slots[i].value else UL_OK
  {
    FirstFailureUnique(slots, i);
  }

  predicate Ordered(calls: seq<Event>) {
    && (forall a :: 0 <= a < |calls| ==> calls[a].Called?)
    && forall a, b :: 0 <= a < b < |calls| ==> calls[a].slot < calls[b].slot
  }

  lemma {:induction false} CallsUpToExact(slots: seq<Slot>, call: Call, n: nat)
    requires n <= |slots|
    ensures Ordered(CallsUpTo(slots, call, n))
    ensures forall e :: e in CallsUpTo(slots, call, n)
                        <==> e.Called? && e.call == call && e.slot < n && slots[e.slot].Some?
  {
    if n > 0 {
      CallsUpToExact(slots, call, n - 1);
      if slots[n - 1].Some? {
        OrderedAppend(CallsUpTo(slots, call, n - 1), call, n - 1);
      }
    }
  }

  lemma OrderedAppend(calls: seq<Event>, call: Call, slot: nat)
    requires Ordered(calls) && forall e :: e in calls ==> e.Called? && e.slot < slot
    ensures Ordered(calls + [Called(slot, call)])
  {
    var r := calls + [Called(slot, call)];
    assert forall a :: 0 <= a < |calls| ==> r[a] == calls[a] && calls[a] in calls;
  }

  /**
   A dispatch that succeeds has called every module that has the callback exactly once, in order, and each returned
   UL_OK; one that fails has called exactly those up to and including the first that failed, and returns its error.
   */
  lemma DispatchExact(slots: seq<Slot>, call: Call)
    ensures Ordered(Calls(slots, call))
    ensures Result(slots) == UL_OK <==> forall k :: 0 <= k < |slots| ==> !Fails(slots[k])
    ensures Result(slots) == UL_OK ==>
              forall k: nat :: Called(k, call) in Calls(slots, call) <==> k < |slots| && slots[k] == Some(UL_OK)
    ensures Result(slots) != UL_OK ==>
              exists cut: nat :: cut < |slots| && Failed(slots, call, cut)
  {
    CallsUpToExact(slots, call, Rounds(slots));
    var cut := FirstFailure(slots);
    if cut < |slots| {
      assert Failed(slots, call, cut);
    }
  }

  ghost predicate Failed(slots: seq<Slot>, call: Call, cut: nat)
    requires cut < |slots|
  {
    && slots[cut] == Some(Result(slots))
    && (forall k :: 0 <= k < cut ==> !Fails(slots[k]))
    && forall k: nat :: Called(k, call) in Calls(slots, call) <==> k <= cut && slots[k].Some?
  }

  /** A module is called if it is eligible and no module before it has failed. */
  predicate Asked(slots: seq<Slot>, s: nat) {
    s < |slots| && slots[s].Some? && forall j :: 0 <= j < s ==> !Fails(slots[j])
  }

  lemma AskedExact(slots: seq<Slot>, call: Call)
    ensures forall s: nat :: Called(s, call) in Calls(slots, call) <==> Asked(slots, s)
    ensures Result(slots) == UL_OK <==> forall j :: 0 <= j < |slots| ==> !Fails(slots[j])
    ensures Result(slots) != UL_OK ==> exists s: nat :: Asked(slots, s) && slots[s].value == Result(slots)
    ensures forall s: nat :: Asked(slots, s) && Fails(slots[s]) ==> Result(slots) == slots[s].value
  {
    CallsUpToExact(slots, call, Rounds(slots));
    var first := FirstFailure(slots);
    if first < |slots| {
      assert Asked(slots, first);
    }
    forall s: nat | Asked(slots, s) && Fails(slots[s]) ensures FirstFailure(slots) == s {
      FirstFailureUnique(slots, s);
    }
  }
}

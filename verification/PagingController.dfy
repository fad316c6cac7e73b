/** DownlinkDataController of onvm_test/paging_test.go: addresses are collected
    and pinged together once there is one for every thread. */
module PagingController {
  import opened Bytes

  /** addressList and counter. */
  datatype Controller<+A> = Controller(list: seq<A>, counter: nat)

  /** One value received from the channel. When it fills the list, the list is
      flushed and collecting starts over; a blank value is ignored. */
  function Accept<A>(c: Controller<A>, a: A, blank: bool): (Controller<A>, Option<seq<A>>)
    requires c.counter < |c.list|
  {
    if blank then (c, None)
    else
      var list := c.list[c.counter := a];
      if c.counter + 1 == |list| then (Controller(list, 0), Some(list))
      else (Controller(list, c.counter + 1), None)
  }

  /** All values received, in order; blank says which are blank. Returns the
      lists flushed. */
  function AcceptAll<A>(c: Controller<A>, inputs: seq<A>, blank: A -> bool): (Controller<A>, seq<seq<A>>)
    requires c.counter < |c.list|
    decreases |inputs|
  {
    if inputs == [] then (c, [])
    else
      var (c1, flushed) := Accept(c, inputs[0], blank(inputs[0]));
      var (c2, later) := AcceptAll(c1, inputs[1..], blank);
      (c2, if flushed.Some? then [flushed.value] + later else later)
  }

  function NotBlank<A>(inputs: seq<A>, blank: A -> bool): seq<A> {
    if inputs == [] then []
    else (if blank(inputs[0]) then [] else [inputs[0]]) + NotBlank(inputs[1..], blank)
  }

  function Joined<A>(lists: seq<seq<A>>): seq<A> {
    if lists == [] then [] else lists[0] + Joined(lists[1..])
  }

  lemma AcceptOne<A>(c: Controller<A>, a: A)
    requires c.counter < |c.list|
    ensures
      var (c1, flushed) := Accept(c, a, false);
      && c1.counter < |c1.list| == |c.list|
      && (flushed.Some? ==> |flushed.value| == |c.list|)
      && (if flushed.Some? then flushed.value else []) + c1.list[..c1.counter] == c.list[..c.counter] + [a]
  {
    var list := c.list[c.counter := a];
    assert list[..c.counter + 1] == c.list[..c.counter] + [a];
    if c.counter + 1 == |list| {
      assert list == list[..c.counter + 1] && list + [] == list;
    } else {
      assert [] + list[..c.counter + 1] == list[..c.counter + 1];
    }
  }

  /** The controller loses, repeats and reorders nothing: the lists flushed, one
      after the other, and what is still collected are what was collected before
      and the addresses received since that are not blank; every list flushed is
      full. */
  lemma {:induction false} CollectsInOrder<A>(c: Controller<A>, inputs: seq<A>, blank: A -> bool)
    requires c.counter < |c.list|
    ensures
      var (c1, lists) := AcceptAll(c, inputs, blank);
      && c1.counter < |c1.list| == |c.list|
      && (forall i | 0 <= i < |lists| :: |lists[i]| == |c.list|)
      && Joined(lists) + c1.list[..c1.counter] == c.list[..c.counter] + NotBlank(inputs, blank)
    decreases |inputs|
  {
    var collected, rest := c.list[..c.counter], NotBlank(inputs, blank);
    if inputs == [] {
      assert [] + collected == collected + [];
    } else {
      var a, more := inputs[0], NotBlank(inputs[1..], blank);
      var (c1, flushed) := Accept(c, a, blank(a));
      var (c2, later) := AcceptAll(c1, inputs[1..], blank);
      CollectsInOrder(c1, inputs[1..], blank);
      if blank(a) {
        assert rest == more;
      } else {
        AcceptOne(c, a);
        assert rest == [a] + more;
        var first := if flushed.Some? then flushed.value else [];
        Splice(first, c1.list[..c1.counter], collected, a, Joined(later), c2.list[..c2.counter], more);
        if flushed.Some? {
          assert ([flushed.value] + later)[1..] == later;
        } else {
          assert [] + Joined(later) == Joined(later);
        }
      }
    }
  }

  lemma Splice<A>(x: seq<A>, y: seq<A>, p: seq<A>, a: A, j: seq<A>, z: seq<A>, more: seq<A>)
    requires x + y == p + [a] && j + z == y + more
    ensures x + j + z == p + ([a] + more)
  {
    assert x + j + z == x + (j + z) == x + (y + more) == (x + y) + more;
  }

  class DownlinkDataController {
    var counter: nat
    const addressList: array<string>

    ghost predicate Valid()
      reads this
    {
      addressList.Length > 0 ==> counter < addressList.Length
    }

    function State(): Controller<string>
      reads this, addressList
    {
      Controller(addressList[..], counter)
    }

    constructor (threadAmount: nat)
      ensures Valid() && fresh(addressList)
      ensures counter == 0 && addressList.Length == threadAmount
    {
      counter := 0;
      addressList := new string[threadAmount](_ => "");
    }

    /** The body of the receiving loop; returns the addresses it pings. */
    method Receive(address: string) returns (pinged: seq<string>)
      requires Valid() && addressList.Length > 0
      modifies this`counter, addressList
      ensures Valid()
      ensures
        var (next, flushed) := Accept(old(State()), address, address == "");
        State() == next && pinged == if flushed.Some? then flushed.value else []
    {
      pinged := [];
      if address != "" {
        addressList[counter] := address;
        assert addressList[..] == old(addressList[..])[old(counter) := address];
        counter := counter + 1;
        if counter == addressList.Length {
          counter := 0;
          for i := 0 to addressList.Length
            invariant pinged == addressList[..i]
          {
            pinged := pinged + [addressList[i]];
          }
          assert pinged == addressList[..];
        }
      }
    }
  }
}

/** pub_sub/single_value_subs: aggregates kept up to date as items are added
    to, removed from and updated in a collection, each one broadcasting its
    new value to the subscribers. An item is reduced to the integer value of
    the field being aggregated. */
module SingleValueSubs {
  import opened Wrappers

  /** A subscribed callback, named by an identifier of the caller's choosing. */
  type SubscriberId = nat

  /** One call `subscriber(value)` made by `Broadcast`. */
  datatype Delivery<T> = Delivery(subscriber: SubscriberId, value: T)

  /** The calls that one broadcast of `value` makes, one per subscription, in order. */
  function Fanout<T>(subscribers: seq<SubscriberId>, value: T): seq<Delivery<T>> {
    seq(|subscribers|, i requires 0 <= i < |subscribers| => Delivery(subscribers[i], value))
  }

  /** `Broadcaster[T]`: the subscriber list and, standing in for the callbacks'
      effects, the log of every call made so far. */
  class Broadcaster<T> {
    var subscribers: seq<SubscriberId>
    var delivered: seq<Delivery<T>>

    constructor ()
      ensures subscribers == [] && delivered == []
    {
      subscribers := [];
      delivered := [];
    }

    /** Appends the subscriber after all earlier ones and returns the same broadcaster. */
    method Subscribe(subscriber: SubscriberId) returns (r: Broadcaster<T>)
      modifies this
      ensures r == this
      ensures subscribers == old(subscribers) + [subscriber]
      ensures delivered == old(delivered)
    {
      subscribers := subscribers + [subscriber];
      r := this;
    }

    /** Calls every subscriber once with `value`, in subscription order. */
    method Broadcast(value: T)
      modifies this
      ensures subscribers == old(subscribers)
      ensures delivered == old(delivered) + Fanout(subscribers, value)
    {
      var i := 0;
      while i < |subscribers|
        invariant 0 <= i <= |subscribers|
        invariant subscribers == old(subscribers)
        invariant delivered == old(delivered) + Fanout(subscribers[..i], value)
      {
        assert Fanout(subscribers[..i + 1], value) == Fanout(subscribers[..i], value) + [Delivery(subscribers[i], value)];
        delivered := delivered + [Delivery(subscribers[i], value)];
        i := i + 1;
      }
      assert subscribers[..i] == subscribers;
    }
  }

  /** What happened to the collection, with the aggregated field's values. */
  datatype Event = Added(value: int) | Removed(value: int) | Updated(oldValue: int, newValue: int)

  /** The field total the events leave behind. */
  function NetSum(history: seq<Event>): int
    decreases |history|
  {
    if history == [] then 0
    else
      var e := history[|history| - 1];
      NetSum(history[..|history| - 1]) + match e
        case Added(v) => v
        case Removed(v) => -v
        case Updated(o, n) => n - o
  }

  function Adds(history: seq<Event>): nat
    decreases |history|
  {
    if history == [] then 0
    else Adds(history[..|history| - 1]) + if history[|history| - 1].Added? then 1 else 0
  }

  function Removes(history: seq<Event>): nat
    decreases |history|
  {
    if history == [] then 0
    else Removes(history[..|history| - 1]) + if history[|history| - 1].Removed? then 1 else 0
  }

  /** Totals of consecutive stretches of history add up. */
  lemma {:induction false} NetSumConcat(a: seq<Event>, b: seq<Event>)
    ensures NetSum(a + b) == NetSum(a) + NetSum(b)
    ensures Adds(a + b) == Adds(a) + Adds(b)
    ensures Removes(a + b) == Removes(a) + Removes(b)
    decreases |b|
  {
    if b == [] {
      assert a + b == a;
    } else {
      var b' := b[..|b| - 1];
      assert (a + b)[..|a + b| - 1] == a + b';
      assert (a + b)[|a + b| - 1] == b[|b| - 1];
      NetSumConcat(a, b');
    }
  }

  /** Adding an item and removing it again leaves the sum and the count as they were. */
  lemma AddThenRemove(history: seq<Event>, v: int)
    ensures NetSum(history + [Added(v), Removed(v)]) == NetSum(history)
    ensures Adds(history + [Added(v), Removed(v)]) - Removes(history + [Added(v), Removed(v)])
            == Adds(history) - Removes(history)
  {
    var pair := [Added(v), Removed(v)];
    NetSumConcat(history, pair);
    var one := [Added(v)];
    assert pair[..|pair| - 1] == one && pair[|pair| - 1] == Removed(v);
    assert one[..|one| - 1] == [] && one[|one| - 1] == Added(v);
    assert NetSum(one) == v && Adds(one) == 1 && Removes(one) == 0;
    assert NetSum(pair) == 0 && Adds(pair) == 1 && Removes(pair) == 1;
  }

  /** `Sum[T]`: the running total of the field. */
  class Sum {
    const bus: Broadcaster<int>
    var sum: int
    ghost var history: seq<Event>

    ghost predicate Valid()
      reads this
    {
      sum == NetSum(history)
    }

    constructor ()
      ensures Valid() && sum == 0 && history == []
      ensures fresh(bus) && bus.subscribers == [] && bus.delivered == []
    {
      bus := new Broadcaster<int>();
      sum := 0;
      history := [];
    }

    method OnAdd(value: int)
      requires Valid()
      modifies this, bus
      ensures Valid() && history == old(history) + [Added(value)]
      ensures sum == old(sum) + value
      ensures bus.subscribers == old(bus.subscribers)
      ensures bus.delivered == old(bus.delivered) + Fanout(bus.subscribers, sum)
    {
      sum := sum + value;
      history := history + [Added(value)];
      bus.Broadcast(sum);
    }

    method OnRemove(value: int)
      requires Valid()
      modifies this, bus
      ensures Valid() && history == old(history) + [Removed(value)]
      ensures sum == old(sum) - value
      ensures bus.subscribers == old(bus.subscribers)
      ensures bus.delivered == old(bus.delivered) + Fanout(bus.subscribers, sum)
    {
      sum := sum - value;
      history := history + [Removed(value)];
      bus.Broadcast(sum);
    }

    method OnUpdate(oldValue: int, newValue: int)
      requires Valid()
      modifies this, bus
      ensures Valid() && history == old(history) + [Updated(oldValue, newValue)]
      ensures sum == old(sum) - oldValue + newValue
      ensures bus.subscribers == old(bus.subscribers)
      ensures bus.delivered == old(bus.delivered) + Fanout(bus.subscribers, sum)
    {
      sum := sum - oldValue + newValue;
      history := history + [Updated(oldValue, newValue)];
      bus.Broadcast(sum);
    }
  }

  /** `Count[T]`: the number of items, with no lower bound. */
  class Count {
    const bus: Broadcaster<int>
    var count: int
    ghost var history: seq<Event>

    ghost predicate Valid()
      reads this
    {
      count == Adds(history) - Removes(history)
    }

    constructor ()
      ensures Valid() && count == 0 && history == []
      ensures fresh(bus) && bus.subscribers == [] && bus.delivered == []
    {
      bus := new Broadcaster<int>();
      count := 0;
      history := [];
    }

    method OnAdd(value: int)
      requires Valid()
      modifies this, bus
      ensures Valid() && history == old(history) + [Added(value)]
      ensures count == old(count) + 1
      ensures bus.subscribers == old(bus.subscribers)
      ensures bus.delivered == old(bus.delivered) + Fanout(bus.subscribers, count)
    {
      count := count + 1;
      history := history + [Added(value)];
      bus.Broadcast(count);
    }

    method OnRemove(value: int)
      requires Valid()
      modifies this, bus
      ensures Valid() && history == old(history) + [Removed(value)]
      ensures count == old(count) - 1
      ensures bus.subscribers == old(bus.subscribers)
      ensures bus.delivered == old(bus.delivered) + Fanout(bus.subscribers, count)
    {
      count := count - 1;
      history := history + [Removed(value)];
      bus.Broadcast(count);
    }

    method OnUpdate(oldValue: int, newValue: int)
      requires Valid()
      modifies this, bus
      ensures Valid() && history == old(history) + [Updated(oldValue, newValue)]
      ensures count == old(count)
      ensures bus.subscribers == old(bus.subscribers)
      ensures bus.delivered == old(bus.delivered) + Fanout(bus.subscribers, count)
    {
      history := history + [Updated(oldValue, newValue)];
      bus.Broadcast(count);
    }
  }

  /** A float64 quotient left undivided: the value `numerator / denominator`. */
  datatype Fraction = Fraction(numerator: int, denominator: int)

  /** `calculateAverage`: 0 without items, otherwise sum over count. */
  function CalculateAverage(sum: int, totalCount: int): (a: Fraction)
    ensures a.denominator != 0
    ensures totalCount == 0 ==> a.numerator == 0
    ensures totalCount != 0 ==> a.numerator * totalCount == sum * a.denominator
  {
    if totalCount == 0 then Fraction(0, 1) else Fraction(sum, totalCount)
  }

  /** `Avg[T]`: the field total and the item count whose quotient is broadcast. */
  class Avg {
    const bus: Broadcaster<Fraction>
    var sum: int
    var totalCount: int
    ghost var history: seq<Event>

    ghost predicate Valid()
      reads this
    {
      && sum == NetSum(history)
      && totalCount == Adds(history) - Removes(history)
      && totalCount >= 0
    }

    constructor ()
      ensures Valid() && sum == 0 && totalCount == 0 && history == []
      ensures fresh(bus) && bus.subscribers == [] && bus.delivered == []
    {
      bus := new Broadcaster<Fraction>();
      sum := 0;
      totalCount := 0;
      history := [];
    }

    method OnAdd(value: int)
      requires Valid()
      modifies this, bus
      ensures Valid() && history == old(history) + [Added(value)]
      ensures sum == old(sum) + value && totalCount == old(totalCount) + 1
      ensures bus.subscribers == old(bus.subscribers)
      ensures bus.delivered == old(bus.delivered) + Fanout(bus.subscribers, CalculateAverage(sum, totalCount))
    {
      sum := sum + value;
      totalCount := totalCount + 1;
      history := history + [Added(value)];
      bus.Broadcast(CalculateAverage(sum, totalCount));
    }

    /** Panics, changing and broadcasting nothing, when there is no item to remove. */
    method OnRemove(value: int) returns (o: Outcome<string>)
      requires Valid()
      modifies this, bus
      ensures Valid()
      ensures o.Fail? <==> old(totalCount) <= 0
      ensures o.Fail? ==> sum == old(sum) && totalCount == old(totalCount) && history == old(history)
                          && bus.subscribers == old(bus.subscribers) && bus.delivered == old(bus.delivered)
      ensures o.Pass? ==> sum == old(sum) - value && totalCount == old(totalCount) - 1
                          && history == old(history) + [Removed(value)]
      ensures o.Pass? ==> bus.subscribers == old(bus.subscribers)
                          && bus.delivered == old(bus.delivered) + Fanout(bus.subscribers, CalculateAverage(sum, totalCount))
    {
      if totalCount <= 0 {
        return Fail("inconsistent state: totalCount is 0 but trying to remove an item");
      }
      sum := sum - value;
      totalCount := totalCount - 1;
      history := history + [Removed(value)];
      bus.Broadcast(CalculateAverage(sum, totalCount));
      o := Pass;
    }

    /** Panics, changing and broadcasting nothing, when the collection is empty. */
    method OnUpdate(oldValue: int, newValue: int) returns (o: Outcome<string>)
      requires Valid()
      modifies this, bus
      ensures Valid()
      ensures o.Fail? <==> old(totalCount) < 1
      ensures o.Fail? ==> sum == old(sum) && totalCount == old(totalCount) && history == old(history)
                          && bus.subscribers == old(bus.subscribers) && bus.delivered == old(bus.delivered)
      ensures o.Pass? ==> sum == old(sum) - oldValue + newValue && totalCount == old(totalCount)
                          && history == old(history) + [Updated(oldValue, newValue)]
      ensures o.Pass? ==> bus.subscribers == old(bus.subscribers)
                          && bus.delivered == old(bus.delivered) + Fanout(bus.subscribers, CalculateAverage(sum, totalCount))
    {
      if totalCount < 1 {
        return Fail("cannot update item: no items in the collection");
      }
      sum := sum - oldValue + newValue;
      history := history + [Updated(oldValue, newValue)];
      bus.Broadcast(CalculateAverage(sum, totalCount));
      o := Pass;
    }
  }

  function Abs(x: int): nat {
    if x < 0 then -x else x
  }

  /** Go's `/` on integers: the quotient truncated toward zero, so the
      remainder is smaller than the divisor and has the dividend's sign. */
  function GoDiv(a: int, b: int): (q: int)
    requires b != 0
    ensures Abs(a - q * b) < Abs(b)
    ensures a - q * b == 0 || (a - q * b > 0 <==> a > 0)
  {
    var m := Abs(a) / Abs(b);
    NatDivision(Abs(a), Abs(b));
    var rem := Abs(a) - m * Abs(b);
    assert 0 <= rem < Abs(b);
    var q := if (a < 0) == (b < 0) then m else -m;
    SignedRemainder(a, b, m, q);
    if a < 0 then
      assert a - q * b == -rem;
      q
    else
      assert a - q * b == rem;
      q
  }

  /** With the quotient's sign set from the operands', the remainder carries the dividend's sign. */
  lemma SignedRemainder(a: int, b: int, m: int, q: int)
    requires m >= 0
    requires q == if (a < 0) == (b < 0) then m else -m
    ensures a - q * b == if a < 0 then -(Abs(a) - m * Abs(b)) else Abs(a) - m * Abs(b)
  {
    if a >= 0 && b >= 0 {
    } else if a >= 0 {
      assert q * b == m * Abs(b) by {
        assert q == -m && b == 0 - Abs(b);
      }
    } else if b >= 0 {
      assert q * b == -(m * Abs(b)) by {
        assert q == -m && b == Abs(b);
      }
    } else {
      assert q * b == -(m * Abs(b)) by {
        assert q == m && b == 0 - Abs(b);
      }
    }
  }

  lemma NatDivision(x: nat, y: nat)
    requires y > 0
    ensures 0 <= x - (x / y) * y < y
  {
  }

  lemma SignedProduct(q: int, b: int)
    ensures q * b == (if (q < 0) == (b < 0) then Abs(q) * Abs(b) else -(Abs(q) * Abs(b)))
  {
    if q < 0 && b < 0 {
      assert q * b == (-q) * (-b);
    } else if q < 0 {
      assert q * b == -((-q) * b);
    } else if b < 0 {
      assert q * b == -(q * (-b));
    }
  }

  /** Truncated division undoes multiplication by a nonzero factor. */
  lemma GoDivOfMultiple(p: int, v: int)
    requires v != 0
    ensures GoDiv(p * v, v) == p
  {
    var q := GoDiv(p * v, v);
    assert p * v - q * v == (p - q) * v;
    if p != q {
      SignedProduct(p - q, v);
      AtLeastOnce(Abs(p - q), Abs(v));
    }
  }

  lemma AtLeastOnce(x: nat, y: nat)
    requires x >= 1
    ensures x * y >= y
  {
    assert x * y == (x - 1) * y + y;
  }

  /** `Product[T]`: the running product of the field. */
  class Product {
    const bus: Broadcaster<int>
    var product: int

    constructor ()
      ensures product == 1
      ensures fresh(bus) && bus.subscribers == [] && bus.delivered == []
    {
      bus := new Broadcaster<int>();
      product := 1;
    }

    method OnAdd(value: int)
      modifies this, bus
      ensures product == old(product) * value
      ensures bus.subscribers == old(bus.subscribers)
      ensures bus.delivered == old(bus.delivered) + Fanout(bus.subscribers, product)
    {
      product := product * value;
      bus.Broadcast(product);
    }

    /** Divides by a nonzero value; removing a zero value zeroes the product. */
    method OnRemove(value: int)
      modifies this, bus
      ensures value != 0 ==> product == GoDiv(old(product), value)
      ensures value == 0 ==> product == 0
      ensures bus.subscribers == old(bus.subscribers)
      ensures bus.delivered == old(bus.delivered) + Fanout(bus.subscribers, product)
    {
      if value != 0 {
        product := GoDiv(product, value);
      } else {
        product := 0;
      }
      bus.Broadcast(product);
    }

    /** Divides out a nonzero old value and multiplies in the new one; an old
        value of zero falls back to `RecomputeProduct`. */
    method OnUpdate(oldValue: int, newValue: int)
      modifies this, bus
      ensures oldValue != 0 ==> product == GoDiv(old(product), oldValue) * newValue
      ensures oldValue == 0 ==> product == 0
      ensures bus.subscribers == old(bus.subscribers)
      ensures bus.delivered == old(bus.delivered) + Fanout(bus.subscribers, product)
    {
      if oldValue != 0 {
        product := GoDiv(product, oldValue);
      } else {
        RecomputeProduct();
        return;
      }
      product := product * newValue;
      bus.Broadcast(product);
    }

    /** The placeholder recomputation: sets the product to 0 and broadcasts it. */
    method RecomputeProduct()
      modifies this, bus
      ensures product == 0
      ensures bus.subscribers == old(bus.subscribers)
      ensures bus.delivered == old(bus.delivered) + Fanout(bus.subscribers, 0)
    {
      product := 0;
      bus.Broadcast(product);
    }
  }
}

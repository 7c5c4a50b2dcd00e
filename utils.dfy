/** The Go package `utils`: the bounded key/value array that holds the table
    catalogue, and the string-or-number rendering of key values. */
module Utils {
  import opened Wrappers
  import Decimal

  /** The dynamic type of a Go `any` value, as far as the type switch looks at it. */
  datatype Any = GoString(s: string) | GoInt(n: int) | GoOther(typeName: string)

  /** A string is returned as it is, an int as its `%d` text; any other
      dynamic type is a panic. */
  function StringOrNumToString(value: Any): (r: Result<string, string>)
    ensures value.GoString? ==> r == Ok(value.s)
    ensures value.GoInt? ==> r.Ok? && Decimal.ParseInt(r.value) == value.n
    ensures value.GoInt? ==> r.Ok? && |r.value| > 0 && (r.value[0] == '-' <==> value.n < 0)
    ensures value.GoInt? ==> r.Ok? && Decimal.IsDecimalText(r.value)
    ensures value.GoOther? <==> r.Err?
  {
    match value
    case GoString(s) => Ok(s)
    case GoInt(n) => Decimal.ParseFormatInt(n); Ok(Decimal.FormatInt(n))
    case GoOther(_) => Err("only string and int are supported")
  }

  /** A parallel key/value array whose capacity is fixed when it is made. */
  class CappedKeyValueArray<T> {
    var keys: seq<string>
    var values: seq<T>
    const constantCap: nat

    ghost predicate Valid()
      reads this
    {
      |keys| == |values| <= constantCap
    }

    constructor (constantCap: nat)
      ensures Valid()
      ensures keys == [] && values == [] && this.constantCap == constantCap
    {
      keys := [];
      values := [];
      this.constantCap := constantCap;
    }

    /** Panics when full; otherwise key and value go to the same new last position. */
    method Add(key: string, value: T) returns (o: Outcome<string>)
      requires Valid()
      modifies this
      ensures Valid()
      ensures o.Fail? <==> |old(keys)| >= constantCap
      ensures o.Fail? ==> keys == old(keys) && values == old(values)
      ensures o.Pass? ==> keys == old(keys) + [key] && values == old(values) + [value]
    {
      if |keys| >= constantCap {
        return Fail("key_value_array is full, next time create it with a larger capacity");
      }
      keys := keys + [key];
      values := values + [value];
      o := Pass;
    }

    /** The value at the first position holding `key`; a key never added is a panic. */
    method Get(key: string) returns (r: Result<T, string>)
      requires Valid()
      ensures r.Err? <==> key !in keys
      ensures r.Ok? ==> exists i :: 0 <= i < |keys| && keys[i] == key && r.value == values[i]
                                    && forall j :: 0 <= j < i ==> keys[j] != key
    {
      var i := 0;
      while i < |keys|
        invariant 0 <= i <= |keys|
        invariant forall j :: 0 <= j < i ==> keys[j] != key
      {
        if keys[i] == key {
          return Ok(values[i]);
        }
        i := i + 1;
      }
      r := Err("key " + key + " not found");
    }
  }
}

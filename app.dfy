/** frontend/src/App.tsx: the same replica handler as live_db.tsx, bound to a
    source name, plus the module-level counter that invents source names. */
module App {
  import opened Wrappers
  import Decimal
  import LiveDb

  /** `"source_" + n`, JavaScript's rendering of the counter value `n`. */
  function SourceName(n: nat): string {
    "source_" + Decimal.FormatNat(n)
  }

  /** Different counter values give different names. */
  lemma SourceNamesDistinct(m: nat, n: nat)
    requires m != n
    ensures SourceName(m) != SourceName(n)
  {
    Decimal.FormatNatInjective(m, n);
    assert SourceName(m)[7..] == Decimal.FormatNat(m);
    assert SourceName(n)[7..] == Decimal.FormatNat(n);
  }

  /** The module-level `source_name_upto` and `generate_source_name`. */
  class SourceNameCounter {
    var upto: nat
    ghost var issued: seq<string>

    ghost predicate Valid()
      reads this
    {
      && |issued| == upto
      && forall i :: 0 <= i < |issued| ==> issued[i] == SourceName(i)
    }

    constructor ()
      ensures Valid() && upto == 0 && issued == []
    {
      upto := 0;
      issued := [];
    }

    /** Returns `"source_"` followed by the current count, then increments the count. */
    method Generate() returns (name: string)
      requires Valid()
      modifies this
      ensures Valid()
      ensures name == SourceName(old(upto)) && upto == old(upto) + 1
      ensures name !in old(issued) && issued == old(issued) + [name]
    {
      name := SourceName(upto);
      forall i | 0 <= i < |issued|
        ensures issued[i] != name
      {
        SourceNamesDistinct(i, upto);
      }
      upto := upto + 1;
      issued := issued + [name];
    }
  }

  /** Every name a counter has handed out differs from every other. */
  lemma IssuedNamesDistinct(counter: SourceNameCounter)
    requires counter.Valid()
    ensures forall i, j :: 0 <= i < j < |counter.issued| ==> counter.issued[i] != counter.issued[j]
  {
    forall i, j | 0 <= i < j < |counter.issued|
      ensures counter.issued[i] != counter.issued[j]
    {
      SourceNamesDistinct(i, j);
    }
  }

  /** `syncMessagesInto(Source_name, receiver)(event)`: the source name is
      accepted and not used; the effect is that of the live_db.tsx handler. */
  method SyncMessagesInto(sourceName: string, receiver: LiveDb.Receiver, m: LiveDb.Message)
    returns (o: Outcome<string>)
    requires receiver.Valid()
    modifies receiver
    ensures receiver.Valid()
    ensures LiveDb.Apply(old(receiver.root), m).Ok? ==>
              o == Pass && receiver.root == LiveDb.Apply(old(receiver.root), m).value
    ensures LiveDb.Apply(old(receiver.root), m).Err? ==> o.Fail? && receiver.root == old(receiver.root)
  {
    o := receiver.Handle(m);
  }

  /** `listen_on(streaming_source, source_name = generate_source_name())`:
      a fresh, empty replica; a name is drawn from the counter only when the
      caller gives none. */
  method ListenOn(counter: SourceNameCounter, sourceName: Option<string>)
    returns (receiver: LiveDb.Receiver, boundName: string)
    requires counter.Valid()
    modifies counter
    ensures counter.Valid()
    ensures fresh(receiver) && receiver.Valid() && receiver.root == LiveDb.Object(map[])
    ensures sourceName.Some? ==> boundName == sourceName.value && unchanged(counter)
    ensures sourceName.None? ==>
              boundName == SourceName(old(counter.upto)) && counter.upto == old(counter.upto) + 1
  {
    if sourceName.Some? {
      boundName := sourceName.value;
    } else {
      boundName := counter.Generate();
    }
    receiver := new LiveDb.Receiver();
  }
}

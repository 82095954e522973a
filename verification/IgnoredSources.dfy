/** The ignore list for event sources, and keeping the stored flag in step with it.
    `Parser` stands for reading an address (`ipaddress.ip_address` after a strip). */
module IgnoredSources {
  import opened Wrappers

  datatype Address = Address(version: nat, value: nat)

  /** The addresses `first` to `last` of one IP version. */
  datatype Network = Network(version: nat, first: nat, last: nat)

  type Parser = string -> Option<Address>

  predicate Matches(parse: Parser, src: Option<string>, networks: set<Network>) {
    src.Some? && src.value != "" && parse(src.value).Some? &&
    var a := parse(src.value).value;
    exists n :: n in networks && n.version == a.version && n.first <= a.value <= n.last
  }

  /** An entry of the list; one without a company applies everywhere. */
  datatype Entry = Entry(company: Option<nat>, network: Network)

  datatype Honeypot = Honeypot(id: nat, companies: set<nat>)

  function NetworksFor(entries: set<Entry>, h: Honeypot): set<Network> {
    set e | e in entries && (e.company.None? || e.company.value in h.companies) :: e.network
  }

  datatype Event = Event(honeypot: nat, src: Option<string>, ignored: bool)

  // ---- What a run should leave ------------------------------------------------------------

  /** The event with the flag its honeypot's networks ask for. */
  function Refreshed(parse: Parser, networks: set<Network>, h: nat, e: Event): Event {
    if e.honeypot == h && e.src.Some? then e.(ignored := Matches(parse, e.src, networks)) else e
  }

  /** The event after a run over the honeypots: nothing but the flag may change, and it
      changes only to say whether the address is on the list of the event's honeypot. */
  predicate InStep(parse: Parser, entries: set<Entry>, honeypots: seq<Honeypot>, before: Event, after: Event) {
    && after == before.(ignored := after.ignored)
    && (before.src.None? || (forall h :: h in honeypots ==> h.id != before.honeypot) ==> after == before)
    && (before.src.Some? ==>
          forall h :: h in honeypots && h.id == before.honeypot ==>
            after.ignored == Matches(parse, before.src, NetworksFor(entries, h)))
  }

  predicate AllInStep(parse: Parser, entries: set<Entry>, honeypots: seq<Honeypot>, before: seq<Event>,
                      after: seq<Event>) {
    |after| == |before| && forall i :: 0 <= i < |before| ==> InStep(parse, entries, honeypots, before[i], after[i])
  }

  /** The entry holds for the honeypot, and the address lies in its range. */
  predicate Covers(e: Entry, h: Honeypot, a: Address) {
    && (e.company == None || exists c :: c in h.companies && e.company == Some(c))
    && a.version == e.network.version && e.network.first <= a.value <= e.network.last
  }

  /** After a run, an event with an address is flagged exactly when the address can be read
      and some entry covers it: one of a company of its honeypot, or one for everywhere. */
  lemma FlagMeans(parse: Parser, entries: set<Entry>, honeypots: seq<Honeypot>, before: seq<Event>,
                  after: seq<Event>, i: nat, h: Honeypot)
    requires AllInStep(parse, entries, honeypots, before, after) && i < |before|
    requires h in honeypots && h.id == before[i].honeypot && before[i].src.Some?
    ensures var src := before[i].src.value;
            after[i].ignored <==>
            src != "" && parse(src).Some? && exists e :: e in entries && Covers(e, h, parse(src).value)
  {
    assert InStep(parse, entries, honeypots, before[i], after[i]);
    var src, networks := before[i].src.value, NetworksFor(entries, h);
    if after[i].ignored {
      var n :| n in networks && n.version == parse(src).value.version && n.first <= parse(src).value.value <= n.last;
      var e :| e in entries && (e.company.None? || e.company.value in h.companies) && e.network == n;
      assert e.company.Some? ==> e.company == Some(e.company.value);
      assert Covers(e, h, parse(src).value);
    }
    if src != "" && parse(src).Some? && exists e :: e in entries && Covers(e, h, parse(src).value) {
      var e :| e in entries && Covers(e, h, parse(src).value);
      assert e.network in networks;
    }
  }

  /** One honeypot gets one row: ids do not repeat. */
  predicate DistinctIds(honeypots: seq<Honeypot>) {
    forall i, j :: 0 <= i < j < |honeypots| ==> honeypots[i].id != honeypots[j].id
  }

  /** Going over one more honeypot. */
  lemma OneMoreHoneypot(parse: Parser, entries: set<Entry>, honeypots: seq<Honeypot>, h: Honeypot,
                        before: Event, between: Event, after: Event)
    requires DistinctIds(honeypots + [h])
    requires InStep(parse, entries, honeypots, before, between)
    requires after == Refreshed(parse, NetworksFor(entries, h), h.id, between)
    ensures InStep(parse, entries, honeypots + [h], before, after)
  {
    var longer := honeypots + [h];
    forall g | g in honeypots
      ensures g.id != h.id
    {
      var i :| 0 <= i < |honeypots| && honeypots[i] == g;
      assert longer[i] == g && longer[|honeypots|] == h;
    }
    assert forall g :: g in longer <==> g in honeypots || g == h;
  }

  /** No flag flips twice, because no event belongs to two honeypots. */
  lemma NotYetTouched(parse: Parser, entries: set<Entry>, honeypots: seq<Honeypot>, k: nat,
                      before: Event, between: Event, after: Event)
    requires k < |honeypots| && DistinctIds(honeypots)
    requires InStep(parse, entries, honeypots[..k], before, between)
    requires after == Refreshed(parse, NetworksFor(entries, honeypots[k]), honeypots[k].id, between)
    ensures before == between || between == after
  {
    if between.honeypot == honeypots[k].id {
      assert forall h :: h in honeypots[..k] ==> h.id != before.honeypot;
    }
  }

  /** What a run leaves is fixed by the table it found: the chunk size has no say. */
  lemma {:induction false} InStepUnique(parse: Parser, entries: set<Entry>, honeypots: seq<Honeypot>,
                                        before: seq<Event>, one: seq<Event>, other: seq<Event>)
    requires AllInStep(parse, entries, honeypots, before, one)
    requires AllInStep(parse, entries, honeypots, before, other)
    ensures one == other
  {
    forall i | 0 <= i < |before|
      ensures one[i] == other[i]
    {
      assert InStep(parse, entries, honeypots, before[i], one[i]);
      assert InStep(parse, entries, honeypots, before[i], other[i]);
    }
  }

  /** A second run with the same list finds nothing to change. */
  lemma {:induction false} SecondRunIsIdle(parse: Parser, entries: set<Entry>, honeypots: seq<Honeypot>,
                                           before: seq<Event>, once: seq<Event>, twice: seq<Event>)
    requires AllInStep(parse, entries, honeypots, before, once)
    requires AllInStep(parse, entries, honeypots, once, twice)
    ensures twice == once && Flips(once, twice) == 0
  {
    forall i | 0 <= i < |before|
      ensures twice[i] == once[i]
    {
      assert InStep(parse, entries, honeypots, before[i], once[i]);
      assert InStep(parse, entries, honeypots, once[i], twice[i]);
    }
    NoFlips(once);
  }

  /** How many flags differ. */
  function Flips(before: seq<Event>, after: seq<Event>): nat
    requires |before| == |after|
  {
    if before == [] then 0
    else
      var last := |before| - 1;
      Flips(before[..last], after[..last]) + if before[last].ignored != after[last].ignored then 1 else 0
  }

  /** Every position whose flag differs counts once. */
  lemma {:induction false} FlipsAre(before: seq<Event>, after: seq<Event>)
    requires |before| == |after|
    ensures Flips(before, after) == |set i | 0 <= i < |before| && before[i].ignored != after[i].ignored|
  {
    var all := set i | 0 <= i < |before| && before[i].ignored != after[i].ignored;
    if before == [] {
      assert all == {};
    } else {
      var last := |before| - 1;
      FlipsAre(before[..last], after[..last]);
      var earlier := set i | 0 <= i < last && before[..last][i].ignored != after[..last][i].ignored;
      assert all == earlier + if before[last].ignored != after[last].ignored then {last} else {};
    }
  }

  // ---- The update statement -----------------------------------------------------------------

  function Updated(h: nat, addresses: set<string>, flag: bool, e: Event): Event {
    if e.honeypot == h && e.src.Some? && e.src.value in addresses then e.(ignored := flag) else e
  }

  /** UPDATE ... WHERE honeypot, address and the opposite flag; the row count. */
  method Update(events: seq<Event>, h: nat, addresses: set<string>, flag: bool)
    returns (updated: seq<Event>, rowcount: nat)
    ensures |updated| == |events|
    ensures forall i :: 0 <= i < |events| ==> updated[i] == Updated(h, addresses, flag, events[i])
    ensures rowcount == Flips(events, updated)
  {
    updated, rowcount := [], 0;
    for i := 0 to |events|
      invariant |updated| == i && forall k :: 0 <= k < i ==> updated[k] == Updated(h, addresses, flag, events[k])
      invariant rowcount == Flips(events[..i], updated)
    {
      var e := events[i];
      assert events[..i + 1][..i] == events[..i];
      if e.honeypot == h && e.src.Some? && e.src.value in addresses && e.ignored == !flag {
        updated := updated + [e.(ignored := flag)];
        rowcount := rowcount + 1;
      } else {
        updated := updated + [e];
      }
      assert updated[..i] + [updated[i]] == updated;
    }
    assert events[..|events|] == events;
  }

  /** When no flag flips twice, flips add up. */
  lemma {:induction false} FlipsAddUp(a: seq<Event>, b: seq<Event>, c: seq<Event>)
    requires |a| == |b| == |c|
    requires forall i :: 0 <= i < |a| ==> a[i].ignored == b[i].ignored || b[i].ignored == c[i].ignored
    ensures Flips(a, b) + Flips(b, c) == Flips(a, c)
    decreases |a|
  {
    if a != [] {
      var last := |a| - 1;
      FlipsAddUp(a[..last], b[..last], c[..last]);
    }
  }

  lemma {:induction false} NoFlips(a: seq<Event>)
    ensures Flips(a, a) == 0
  {
    if a != [] {
      NoFlips(a[..|a| - 1]);
    }
  }

  // ---- Going over the events ------------------------------------------------------------------

  function Addresses(list: seq<string>): set<string> { set a | a in list }

  class EventTable {
    var events: seq<Event>

    constructor (events: seq<Event>)
      ensures this.events == events
    {
      this.events := events;
    }

    /** Set the flag for the listed addresses, a chunk at a time. */
    method SetFlag(h: nat, list: seq<string>, flag: bool, chunk: nat) returns (changed: nat)
      requires chunk > 0
      modifies this
      ensures |events| == |old(events)|
      ensures forall i :: 0 <= i < |events| ==> events[i] == Updated(h, Addresses(list), flag, old(events)[i])
      ensures changed == Flips(old(events), events)
    {
      changed := 0;
      var start := 0;
      NoFlips(events);
      while start < |list|
        invariant start <= |list|
        invariant |events| == |old(events)|
        invariant forall i :: 0 <= i < |events| ==>
                    events[i] == Updated(h, Addresses(list[..start]), flag, old(events)[i])
        invariant changed == Flips(old(events), events)
      {
        var end := if start + chunk <= |list| then start + chunk else |list|;
        ghost var before := events;
        var rowcount;
        events, rowcount := Update(events, h, Addresses(list[start..end]), flag);
        assert list[..end] == list[..start] + list[start..end];
        forall i | 0 <= i < |events|
          ensures events[i] == Updated(h, Addresses(list[..end]), flag, old(events)[i])
          ensures old(events)[i].ignored == before[i].ignored || before[i].ignored == events[i].ignored
        {
        }
        FlipsAddUp(old(events), before, events);
        changed := changed + rowcount;
        start := end;
      }
      assert list[..|list|] == list;
    }

    /** The addresses of a honeypot's events whose flag is `flag` and should not be. */
    method Stale(parse: Parser, h: nat, networks: set<Network>, flag: bool) returns (list: seq<string>)
      ensures forall a :: a in list <==>
                exists i :: 0 <= i < |events| && events[i].honeypot == h && events[i].src == Some(a)
                            && events[i].ignored == flag && Matches(parse, Some(a), networks) != flag
    {
      list := [];
      for i := 0 to |events|
        invariant forall a :: a in list <==>
                    exists k :: 0 <= k < i && events[k].honeypot == h && events[k].src == Some(a)
                                && events[k].ignored == flag && Matches(parse, Some(a), networks) != flag
      {
        var e := events[i];
        if e.honeypot == h && e.src.Some? && e.ignored == flag && Matches(parse, e.src, networks) != flag
           && e.src.value !in list {
          list := list + [e.src.value];
        }
      }
    }

    /** The body of the loop over honeypots: both lists are read before either is applied. */
    method ReapplyHoneypot(parse: Parser, networks: set<Network>, h: nat, chunk: nat) returns (changed: nat)
      requires chunk > 0
      modifies this
      ensures |events| == |old(events)|
      ensures forall i :: 0 <= i < |events| ==> events[i] == Refreshed(parse, networks, h, old(events)[i])
      ensures changed == Flips(old(events), events)
    {
      var toIgnore := Stale(parse, h, networks, false);
      var toRestore := Stale(parse, h, networks, true);
      var ignored := SetFlag(h, toIgnore, true, chunk);
      ghost var between := events;
      var restored := SetFlag(h, toRestore, false, chunk);
      changed := ignored + restored;
      forall i | 0 <= i < |events|
        ensures events[i] == Refreshed(parse, networks, h, old(events)[i])
        ensures old(events)[i].ignored == between[i].ignored || between[i].ignored == events[i].ignored
      {
        var e := old(events)[i];
        assert between[i] == Updated(h, Addresses(toIgnore), true, e);
        assert events[i] == Updated(h, Addresses(toRestore), false, between[i]);
        if e.honeypot == h && e.src.Some? {
          assert e.src.value in toIgnore ==> Matches(parse, e.src, networks);
          assert e.src.value in toRestore ==> !Matches(parse, e.src, networks);
        }
      }
      FlipsAddUp(old(events), between, events);
    }

    /** Bring every stored flag in line with the list; the number of flags that changed. */
    method Reapply(parse: Parser, entries: set<Entry>, honeypots: seq<Honeypot>, chunk: nat) returns (changed: nat)
      requires chunk > 0
      requires DistinctIds(honeypots)
      modifies this
      ensures AllInStep(parse, entries, honeypots, old(events), events)
      ensures changed == Flips(old(events), events)
    {
      changed := 0;
      NoFlips(events);
      for k := 0 to |honeypots|
        invariant AllInStep(parse, entries, honeypots[..k], old(events), events)
        invariant changed == Flips(old(events), events)
      {
        ghost var between := events;
        var h := honeypots[k];
        var flipped := ReapplyHoneypot(parse, NetworksFor(entries, h), h.id, chunk);
        changed := changed + flipped;
        assert honeypots[..k + 1] == honeypots[..k] + [h];
        forall i | 0 <= i < |events|
          ensures InStep(parse, entries, honeypots[..k + 1], old(events)[i], events[i])
          ensures old(events)[i].ignored == between[i].ignored || between[i].ignored == events[i].ignored
        {
          OneMoreHoneypot(parse, entries, honeypots[..k], h, old(events)[i], between[i], events[i]);
          assert InStep(parse, entries, honeypots[..k], old(events)[i], between[i]);
          NotYetTouched(parse, entries, honeypots, k, old(events)[i], between[i], events[i]);
        }
        FlipsAddUp(old(events), between, events);
      }
      assert honeypots[..|honeypots|] == honeypots;
    }
  }
}

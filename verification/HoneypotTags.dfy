/** Tags of honeypots: rows created when a name is first used, and dropped with the last
    honeypot that carries it. The tag table maps ids to names; the link table holds
    (honeypot, tag id) pairs. */
module HoneypotTags {
  import opened Text

  // ---- Names ------------------------------------------------------------------------------

  const MAX_TAG_LENGTH := 64

  /** Lower case, character by character. */
  type Fold = char -> char

  ghost predicate Settles(fold: Fold) {
    forall c :: fold(fold(c)) == fold(c)
  }

  function Folded(fold: Fold, s: string): string { seq(|s|, i requires 0 <= i < |s| => fold(s[i])) }

  function Cut(s: string): string { if |s| <= MAX_TAG_LENGTH then s else s[..MAX_TAG_LENGTH] }

  function NameOf(fold: Fold, raw: string): string { Strip(Cut(Folded(fold, Strip(raw)))) }

  /** What a stored name looks like. */
  predicate IsName(fold: Fold, s: string) {
    0 < |s| <= MAX_TAG_LENGTH && !IsSpace(s[0]) && !IsSpace(s[|s| - 1]) && forall c :: c in s ==> fold(c) == c
  }

  predicate Distinct<T(==)>(list: seq<T>) {
    forall i, j :: 0 <= i < j < |list| ==> list[i] != list[j]
  }

  /** Listed more than once. */
  predicate Repeated<T(==)>(list: seq<T>, x: T) {
    exists i, j :: 0 <= i < j < |list| && list[i] == x && list[j] == x
  }

  lemma RepeatedSnoc<T>(list: seq<T>, last: T, x: T)
    ensures Repeated(list + [last], x) <==> Repeated(list, x) || (x == last && x in list)
  {
    var longer := list + [last];
    if i, j :| 0 <= i < j < |longer| && longer[i] == x && longer[j] == x {
      assert i < |list| && list[i] == x;
      assert j < |list| ==> list[j] == x;
    }
    if i, j :| 0 <= i < j < |list| && list[i] == x && list[j] == x {
      assert longer[i] == x && longer[j] == x;
    }
    if x == last && x in list {
      var i :| 0 <= i < |list| && list[i] == x;
      assert longer[i] == x && longer[|list|] == x;
    }
  }

  lemma RepeatedStays<T>(list: seq<T>, n: nat, x: T)
    requires n <= |list| && Repeated(list[..n], x)
    ensures Repeated(list, x)
  {
    var i, j :| 0 <= i < j < n && list[..n][i] == x && list[..n][j] == x;
    assert list[i] == x && list[j] == x;
  }

  lemma {:induction false} StripIsBare(s: string)
    ensures |Strip(s)| <= |s| && forall c :: c in Strip(s) ==> c in s
    ensures Strip(s) != [] ==> !IsSpace(Strip(s)[0]) && !IsSpace(Strip(s)[|Strip(s)| - 1])
  {
    StripLeftIsBare(s);
    StripRightIsBare(StripLeft(s));
  }

  lemma {:induction false} StripLeftIsBare(s: string)
    ensures |StripLeft(s)| <= |s| && forall c :: c in StripLeft(s) ==> c in s
    ensures StripLeft(s) != [] ==> !IsSpace(StripLeft(s)[0])
  {
    if s != [] && IsSpace(s[0]) {
      StripLeftIsBare(s[1..]);
    }
  }

  lemma {:induction false} StripRightIsBare(s: string)
    ensures StripRight(s) <= s
    ensures StripRight(s) != [] ==> !IsSpace(StripRight(s)[|StripRight(s)| - 1])
  {
    if s != [] && IsSpace(s[|s| - 1]) {
      StripRightIsBare(s[..|s| - 1]);
    }
  }

  /** Lower case makes and loses no white space. */
  ghost predicate KeepsSpaces(fold: Fold) {
    forall c :: IsSpace(fold(c)) <==> IsSpace(c)
  }

  /** What a raw name becomes: the white space around it goes, a long one keeps its first
      `MAX_TAG_LENGTH` characters less the white space they end in, and every character is
      folded. */
  lemma NameIs(fold: Fold, left: string, name: string, gap: string, rest: string, right: string)
    requires KeepsSpaces(fold) && Blank(left) && Blank(gap) && Blank(right)
    requires Trimmed(name + gap + rest) && Trimmed(name)
    requires if rest == [] then gap == [] && |name| <= 64 else |name + gap| == 64
    ensures var got := NameOf(fold, left + (name + gap + rest) + right);
            |got| == |name| && forall i :: 0 <= i < |name| ==> got[i] == fold(name[i])
  {
    StripIs(left, name + gap + rest, right);
    CutIs(fold, name, gap, rest);
    StrippedAgain(fold, name, gap);
  }

  lemma StrippedAgain(fold: Fold, name: string, gap: string)
    requires KeepsSpaces(fold) && Blank(gap) && Trimmed(name)
    ensures Strip(Folded(fold, name) + Folded(fold, gap)) == Folded(fold, name)
  {
    StripIs([], Folded(fold, name), Folded(fold, gap));
    assert [] + Folded(fold, name) == Folded(fold, name);
  }

  lemma CutIs(fold: Fold, name: string, gap: string, rest: string)
    requires if rest == [] then gap == [] && |name| <= 64 else |name + gap| == 64
    ensures Cut(Folded(fold, name + gap + rest)) == Folded(fold, name) + Folded(fold, gap)
  {
    var folded := Folded(fold, name + gap + rest);
    assert folded == (Folded(fold, name) + Folded(fold, gap)) + Folded(fold, rest);
  }

  lemma NameIsName(fold: Fold, raw: string)
    requires Settles(fold)
    ensures NameOf(fold, raw) != [] ==> IsName(fold, NameOf(fold, raw))
  {
    var folded := Folded(fold, Strip(raw));
    forall c | c in Cut(folded)
      ensures fold(c) == c
    {
      var i :| 0 <= i < |folded| && folded[i] == c;
      assert fold(fold(Strip(raw)[i])) == fold(Strip(raw)[i]);
    }
    StripIsBare(Cut(folded));
  }

  /** A name is its own normal form. */
  lemma NameStays(fold: Fold, s: string)
    requires IsName(fold, s)
    ensures NameOf(fold, s) == s
  {
    StripTrailing(s, "");
    assert s + "" == s;
    assert Folded(fold, s) == s;
  }

  /** The names a list spells, each where it is first used. */
  function Names(fold: Fold, raws: seq<string>): seq<string> {
    if raws == [] then []
    else
      var earlier, name := Names(fold, raws[..|raws| - 1]), NameOf(fold, raws[|raws| - 1]);
      if name == "" || name in earlier then earlier else earlier + [name]
  }

  method Normalize(fold: Fold, raws: seq<string>) returns (names: seq<string>)
    ensures names == Names(fold, raws)
  {
    var seen: set<string> := {};
    names := [];
    for k := 0 to |raws|
      invariant names == Names(fold, raws[..k])
      invariant forall n :: n in seen <==> n in names
    {
      var name := NameOf(fold, raws[k]);
      assert raws[..k + 1][..k] == raws[..k];
      if name != "" && name !in seen {
        seen := seen + {name};
        names := names + [name];
      }
    }
    assert raws[..|raws|] == raws;
  }

  lemma {:induction false} NoNameTwice(fold: Fold, raws: seq<string>)
    ensures Distinct(Names(fold, raws))
  {
    if raws != [] {
      NoNameTwice(fold, raws[..|raws| - 1]);
    }
  }

  /** The names of the entries, and no others. */
  lemma {:induction false} NamesAreThoseSpelled(fold: Fold, raws: seq<string>, name: string)
    ensures name in Names(fold, raws) <==> name != "" && exists raw :: raw in raws && NameOf(fold, raw) == name
  {
    if raws != [] {
      var shorter, raw := raws[..|raws| - 1], raws[|raws| - 1];
      NamesAreThoseSpelled(fold, shorter, name);
      assert raws == shorter + [raw];
      assert raws[|raws| - 1] in raws;
      assert forall r :: r in raws <==> r in shorter || r == raw;
    }
  }

  /** The order is that of first use: more entries only add names at the end. */
  lemma {:induction false} NamesGrow(fold: Fold, raws: seq<string>, k: nat)
    requires k <= |raws|
    ensures Names(fold, raws[..k]) <= Names(fold, raws)
  {
    if k == |raws| {
      assert raws[..k] == raws;
    } else {
      NamesGrow(fold, raws[..|raws| - 1], k);
      assert raws[..|raws| - 1][..k] == raws[..k];
    }
  }

  lemma {:induction false} NamesStay(fold: Fold, names: seq<string>)
    requires Distinct(names) && forall n :: n in names ==> IsName(fold, n)
    ensures Names(fold, names) == names
  {
    if names != [] {
      var shorter, last := names[..|names| - 1], names[|names| - 1];
      assert names == shorter + [last];
      NamesStay(fold, shorter);
      assert last in names && last !in shorter;
      NameStays(fold, last);
    }
  }

  /** Normalizing what was normalized changes nothing. */
  lemma {:induction false} NormalizeTwice(fold: Fold, raws: seq<string>)
    requires Settles(fold)
    ensures forall n :: n in Names(fold, raws) ==> IsName(fold, n)
    ensures Names(fold, Names(fold, raws)) == Names(fold, raws)
  {
    NoNameTwice(fold, raws);
    forall n | n in Names(fold, raws)
      ensures IsName(fold, n)
    {
      NamesAreThoseSpelled(fold, raws, n);
      var raw :| raw in raws && NameOf(fold, raw) == n;
      NameIsName(fold, raw);
    }
    NamesStay(fold, Names(fold, raws));
  }

  // ---- What an operation asks for -----------------------------------------------------------

  datatype Op =
    | Replace(honeypot: nat, names: set<string>)
    | Add(honeypots: set<nat>, names: set<string>)
    | Remove(honeypots: set<nat>, names: set<string>)
    | Sync(honeypot: nat, enabled: set<string>)

  /** Which honeypot carries which name, after an operation. */
  ghost predicate Carries(vocabulary: set<string>, op: Op, before: bool, h: nat, name: string) {
    match op
    case Replace(honeypot, names) => if h == honeypot then name in names else before
    case Add(honeypots, names) => before || (h in honeypots && name in names)
    case Remove(honeypots, names) => before && !(h in honeypots && name in names)
    case Sync(honeypot, enabled) => if h == honeypot then (before && name !in vocabulary) || name in enabled else before
  }

  /** ... and after many. */
  ghost predicate CarriesAfter(vocabulary: set<string>, ops: seq<Op>, before: bool, h: nat, name: string) {
    if ops == [] then before
    else
      var last := |ops| - 1;
      Carries(vocabulary, ops[last], CarriesAfter(vocabulary, ops[..last], before, h, name), h, name)
  }

  /** The modules of the last sync of a honeypot. */
  ghost predicate EnabledLast(ops: seq<Op>, h: nat, name: string) {
    ops != [] &&
    var last := |ops| - 1;
    if ops[last].Sync? && ops[last].honeypot == h then name in ops[last].enabled else EnabledLast(ops[..last], h, name)
  }

  ghost predicate Synced(ops: seq<Op>, h: nat) {
    exists i :: 0 <= i < |ops| && ops[i].Sync? && ops[i].honeypot == h
  }

  /** Syncing, however often and with whatever modules, keeps every tag that is no module
      name, and leaves of the module names those of the last sync. */
  lemma {:induction false} SyncsCompose(vocabulary: set<string>, ops: seq<Op>, before: bool, h: nat, name: string)
    requires forall i :: 0 <= i < |ops| ==> ops[i].Sync? && ops[i].enabled <= vocabulary
    ensures CarriesAfter(vocabulary, ops, before, h, name) <==>
              if name in vocabulary && Synced(ops, h) then EnabledLast(ops, h, name) else before
    decreases |ops|
  {
    if ops != [] {
      var last := |ops| - 1;
      SyncsCompose(vocabulary, ops[..last], before, h, name);
      assert ops == ops[..last] + [ops[last]];
      assert Synced(ops[..last], h) ==> Synced(ops, h);
    }
  }

  function WithoutSyncs(ops: seq<Op>): (others: seq<Op>)
    ensures forall op :: op in others <==> op in ops && !op.Sync?
  {
    if ops == [] then []
    else
      var last := |ops| - 1;
      WithoutSyncs(ops[..last]) + if ops[last].Sync? then [] else [ops[last]]
  }

  /** In any run, a tag that is no module name fares as if no sync had happened. */
  lemma {:induction false} SyncsLeaveManualTags(vocabulary: set<string>, ops: seq<Op>, before: bool, h: nat,
                                                name: string)
    requires forall i :: 0 <= i < |ops| && ops[i].Sync? ==> ops[i].enabled <= vocabulary
    requires name !in vocabulary
    ensures CarriesAfter(vocabulary, ops, before, h, name) <==>
              CarriesAfter(vocabulary, WithoutSyncs(ops), before, h, name)
  {
    if ops != [] {
      var last := |ops| - 1;
      SyncsLeaveManualTags(vocabulary, ops[..last], before, h, name);
      var rest := WithoutSyncs(ops[..last]);
      assert (rest + [ops[last]])[..|rest|] == rest;
      assert rest + [] == rest;
    }
  }

  /** `ids` are the tags of `names`, one by one. */
  predicate TagsFor(tags: map<nat, string>, names: seq<string>, ids: seq<nat>) {
    |ids| == |names| && forall k :: 0 <= k < |ids| ==> ids[k] in tags && tags[ids[k]] == names[k]
  }

  /** All tags so named are known under their name. */
  predicate Known(tags: map<nat, string>, existing: map<string, nat>, names: seq<string>) {
    && (forall name :: name in existing ==> existing[name] in tags && tags[existing[name]] == name)
    && (forall id :: id in tags && tags[id] in names ==> tags[id] in existing)
  }

  /** Only tags of the names are new. */
  predicate Grown(before: map<nat, string>, after: map<nat, string>, names: seq<string>) {
    && (forall id :: id in before ==> id in after && after[id] == before[id])
    && (forall id :: id in after && id !in before ==> after[id] in names)
  }

  lemma OneMoreTag(before: map<nat, string>, after: map<nat, string>, names: seq<string>, k: nat, ids: seq<nat>,
                   id: nat)
    requires k < |names| && TagsFor(before, names[..k], ids) && Grown(before, after, names)
    requires id in after && after[id] == names[k]
    ensures TagsFor(after, names[..k + 1], ids + [id])
  {
  }

  ghost predicate Linked(tags: map<nat, string>, links: set<(nat, nat)>, h: nat, name: string) {
    exists id :: id in tags && tags[id] == name && (h, id) in links
  }

  /** Linking every honeypot to every tag adds exactly those names. */
  lemma AddedLinks(before: map<nat, string>, after: map<nat, string>, links: set<(nat, nat)>, added: set<(nat, nat)>,
                   honeypots: seq<nat>, names: seq<string>, ids: seq<nat>, h: nat, name: string)
    requires Grown(before, after, names) && TagsFor(after, names, ids) && forall l :: l in links ==> l.1 in before
    requires forall g, id :: (g, id) in added <==> (g, id) in links || (g in honeypots && id in ids)
    ensures Linked(after, added, h, name) <==> Linked(before, links, h, name) || (h in honeypots && name in names)
  {
    if name in names {
      var k :| 0 <= k < |names| && names[k] == name;
      assert ids[k] in ids && after[ids[k]] == name;
    }
    if id :| id in before && before[id] == name && (h, id) in links {
      assert (h, id) in added && after[id] == name;
    }
    if id :| id in after && after[id] == name && (h, id) in added {
      assert (h, id) in links ==> id in before && before[id] == name;
    }
  }

  /** Whatever is listed twice is linked already, so no row is asked for twice. */
  ghost predicate NoRowTwice(links: set<(nat, nat)>, honeypots: seq<nat>, ids: seq<nat>) {
    forall h, id :: h in honeypots && id in ids && (Repeated(honeypots, h) || Repeated(ids, id)) ==> (h, id) in links
  }

  /** The same, said of names. */
  ghost predicate NoNewTagTwice(tags: map<nat, string>, links: set<(nat, nat)>, honeypots: seq<nat>,
                                names: seq<string>)
  {
    forall h, name :: h in honeypots && name in names && (Repeated(honeypots, h) || Repeated(names, name)) ==>
      Linked(tags, links, h, name)
  }

  // ---- The two tables -------------------------------------------------------------------------

  /** The members of a set, each once. */
  method Listed<T(==)>(s: set<T>) returns (list: seq<T>)
    ensures Distinct(list) && forall x :: x in list <==> x in s
  {
    list := [];
    var rest := s;
    while rest != {}
      invariant rest <= s && Distinct(list) && forall x :: x in list <==> x in s - rest
      decreases |rest|
    {
      var x :| x in rest;
      assert x !in list;
      list := list + [x];
      rest := rest - {x};
    }
  }

  class TagStore {
    /** The tag names that stand for modules. */
    const vocabulary: set<string>
    var tags: map<nat, string>
    var links: set<(nat, nat)>
    var nextId: nat

    constructor (vocabulary: set<string>)
      ensures Valid() && this.vocabulary == vocabulary && tags == map[] && links == {}
    {
      this.vocabulary := vocabulary;
      tags, links, nextId := map[], {}, 0;
    }

    /** The constraints of the schema: unique names, links to existing tags, unused ids. */
    ghost predicate Valid()
      reads this
    {
      && (forall a, b :: a in tags && b in tags && tags[a] == tags[b] ==> a == b)
      && (forall l :: l in links ==> l.1 in tags)
      && (forall a :: a in tags ==> a < nextId)
    }

    predicate Used(id: nat)
      reads this
    {
      exists l :: l in links && l.1 == id
    }

    /** A tag on no honeypot. */
    ghost predicate Orphan(id: nat)
      reads this
    {
      id in tags && !Used(id)
    }

    ghost predicate Tagged(h: nat, name: string)
      reads this
    {
      Linked(tags, links, h, name)
    }

    /** Drop those of the tags that are on no honeypot any more. */
    method DeleteOrphaned(ids: set<nat>)
      requires Valid()
      modifies this`tags
      ensures Valid()
      ensures forall id :: id in tags <==> id in old(tags) && (id in ids ==> Used(id))
      ensures forall id :: id in tags ==> tags[id] == old(tags)[id]
    {
      var rest := ids;
      while rest != {}
        invariant Valid()
        invariant rest <= ids
        invariant forall id :: id in tags <==> id in old(tags) && (id in ids - rest ==> Used(id))
        invariant forall id :: id in tags ==> tags[id] == old(tags)[id]
        decreases |rest|
      {
        var id :| id in rest;
        if !Used(id) && id in tags {
          tags := tags - {id};
        }
        rest := rest - {id};
      }
    }

    method Create(name: string) returns (id: nat)
      requires Valid() && forall id :: id in tags ==> tags[id] != name
      modifies this`tags, this`nextId
      ensures Valid() && id !in old(tags) && tags == old(tags)[id := name]
    {
      id := nextId;
      tags := tags[id := name];
      nextId := nextId + 1;
    }

    /** The tag of a name, created when it is missing. */
    method Lookup(name: string, names: seq<string>, existing: map<string, nat>)
      returns (id: nat, known: map<string, nat>)
      requires Valid() && Known(tags, existing, names) && name in names
      modifies this`tags, this`nextId
      ensures Valid() && Known(tags, known, names) && Grown(old(tags), tags, names)
      ensures id in tags && tags[id] == name
    {
      if name in existing {
        return existing[name], existing;
      }
      id := Create(name);
      known := existing[name := id];
    }

    /** The tags of the names, one by one; missing ones are created. */
    method FindOrCreate(names: seq<string>) returns (ids: seq<nat>)
      requires Valid()
      modifies this`tags, this`nextId
      ensures Valid() && TagsFor(tags, names, ids) && Grown(old(tags), tags, names)
      ensures forall id :: id in ids <==> id in tags && tags[id] in names
    {
      var existing: map<string, nat> := map id | id in tags && tags[id] in names :: tags[id] := id;
      ids := [];
      for k := 0 to |names|
        invariant Valid() && Known(tags, existing, names)
        invariant TagsFor(tags, names[..k], ids) && Grown(old(tags), tags, names)
      {
        ghost var before := tags;
        var id;
        id, existing := Lookup(names[k], names, existing);
        OneMoreTag(before, tags, names, k, ids, id);
        ids := ids + [id];
      }
      assert names[..|names|] == names;
      AllListed(names, ids);
    }

    lemma AllListed(names: seq<string>, ids: seq<nat>)
      requires Valid() && TagsFor(tags, names, ids)
      ensures forall id :: id in ids <==> id in tags && tags[id] in names
    {
      forall id | id in tags && tags[id] in names
        ensures id in ids
      {
        var k :| 0 <= k < |names| && names[k] == tags[id];
        assert ids[k] == id;
      }
    }

    /** A name is listed twice exactly when its tag is. */
    lemma RepeatedTag(names: seq<string>, ids: seq<nat>, id: nat)
      requires Valid() && TagsFor(tags, names, ids) && id in tags
      ensures Repeated(ids, id) <==> Repeated(names, tags[id])
    {
    }

    /** Link the honeypot to exactly these tags. */
    method Relink(h: nat, ids: set<nat>) returns (removed: set<nat>)
      requires Valid()
      requires forall id :: id in ids ==> id in tags
      modifies this`links
      ensures Valid()
      ensures forall g, id :: (g, id) in links <==> if g == h then id in ids else (g, id) in old(links)
      ensures removed == set id | id in tags && (h, id) in old(links) && id !in ids
    {
      var previous := set l | l in links && l.0 == h :: l.1;
      assert forall id :: id in previous <==> (h, id) in links;
      removed := previous - ids;
      var added := ids - previous;
      links := set l | l in links && !(l.0 == h && l.1 in removed);
      links := links + set id | id in added :: (h, id);
      assert forall l :: l in links ==> l == (l.0, l.1);
    }

    /** Give the honeypot exactly the named tags. */
    method SetTags(h: nat, names: seq<string>)
      requires Valid()
      modifies this
      ensures Valid()
      ensures forall g, name :: Tagged(g, name) <==>
                if g == h then name in names else old(Tagged(g, name))
      ensures forall id :: Orphan(id) ==> old(Orphan(id))
    {
      var list := FindOrCreate(names);
      var ids := set id | id in list;
      assert forall name :: name in names ==> exists id :: id in ids && tags[id] == name by {
        assert forall k :: 0 <= k < |names| ==> list[k] in ids && tags[list[k]] == names[k];
      }
      label Linked:
      var removed := Relink(h, ids);
      label Dropped:
      DeleteOrphaned(removed);
      forall id | Orphan(id)
        ensures old(Orphan(id))
      {
        assert id !in ids by { assert id in ids ==> (h, id) in links; }
        assert id in old(tags);
        assert id !in removed;
        forall l | l in old(links)
          ensures l.1 != id
        {
          assert l == (l.0, l.1);
        }
      }
      forall g, name
        ensures Tagged(g, name) <==>
                  if g == h then name in names else old(Tagged(g, name))
      {
        if g == h {
          if name in names {
            var id :| id in ids && old@Linked(tags)[id] == name;
            assert (h, id) in links && Used(id);
          }
        } else {
          if old(Tagged(g, name)) {
            var id :| id in old(tags) && old(tags)[id] == name && (g, id) in old(links);
            assert (g, id) in links && Used(id);
          }
        }
      }
    }

    /** The new rows of one honeypot; a row that is there is an error of the database. */
    method InsertFor(h: nat, ids: seq<nat>, already: set<(nat, nat)>) returns (ok: bool)
      requires Valid() && already <= links
      requires forall id :: id in ids ==> id in tags
      modifies this`links
      ensures Valid()
      ensures ok <==> forall id :: id in ids && (h, id) !in already ==> (h, id) !in old(links) && !Repeated(ids, id)
      ensures ok ==> forall g, id :: (g, id) in links <==> (g, id) in old(links) || (g == h && id in ids)
    {
      for m := 0 to |ids|
        invariant Valid()
        invariant forall g, id :: (g, id) in links <==> (g, id) in old(links) || (g == h && id in ids[..m])
        invariant forall id :: id in ids[..m] && (h, id) !in already ==>
                    (h, id) !in old(links) && !Repeated(ids[..m], id)
      {
        var id := ids[m];
        assert ids[..m + 1] == ids[..m] + [id];
        forall x
          ensures Repeated(ids[..m + 1], x) <==> Repeated(ids[..m], x) || (x == id && x in ids[..m])
        {
          RepeatedSnoc(ids[..m], id, x);
        }
        if (h, id) !in already {
          if (h, id) in links {
            if id in ids[..m] {
              RepeatedStays(ids, m + 1, id);
            }
            return false;
          }
          links := links + {(h, id)};
        }
      }
      assert ids[..|ids|] == ids;
      return true;
    }

    /** The new rows of a bulk insert, every honeypot with every tag; one row twice is an
        error of the database. */
    method InsertMissing(honeypots: seq<nat>, ids: seq<nat>) returns (ok: bool)
      requires Valid()
      requires forall id :: id in ids ==> id in tags
      modifies this`links
      ensures Valid()
      ensures ok <==> NoRowTwice(old(links), honeypots, ids)
      ensures ok ==> forall g, id :: (g, id) in links <==> (g, id) in old(links) || (g in honeypots && id in ids)
    {
      var already := links;
      for k := 0 to |honeypots|
        invariant Valid()
        invariant forall g, id :: (g, id) in links <==> (g, id) in already || (g in honeypots[..k] && id in ids)
        invariant NoRowTwice(already, honeypots[..k], ids)
      {
        var h := honeypots[k];
        assert honeypots[..k + 1] == honeypots[..k] + [h];
        forall x
          ensures Repeated(honeypots[..k + 1], x) <==> Repeated(honeypots[..k], x) || (x == h && x in honeypots[..k])
        {
          RepeatedSnoc(honeypots[..k], h, x);
        }
        assert already <= links by {
          assert forall l :: l in already ==> (l.0, l.1) == l;
        }
        ghost var before := links;
        var done := InsertFor(h, ids, already);
        if !done {
          ghost var id :| id in ids && (h, id) !in already && ((h, id) in before || Repeated(ids, id));
          if (h, id) in before {
            RepeatedStays(honeypots, k + 1, h);
          }
          return false;
        }
      }
      assert honeypots[..|honeypots|] == honeypots;
      return true;
    }

    /** Give every listed honeypot the named tags as well. */
    method AddTags(honeypots: seq<nat>, names: seq<string>) returns (ok: bool)
      requires Valid()
      modifies this
      ensures Valid()
      ensures ok <==> NoNewTagTwice(old(tags), old(links), honeypots, names)
      ensures ok ==> forall g, name ::
                Tagged(g, name) <==> old(Tagged(g, name)) || (g in honeypots && name in names)
      ensures ok ==> forall id :: Orphan(id) ==> old(Orphan(id))
      ensures !ok ==> tags == old(tags) && links == old(links)
    {
      if names == [] || honeypots == [] {
        return true;
      }
      var tagsBefore, linksBefore, nextBefore := tags, links, nextId;
      var ids := FindOrCreate(names);
      TwiceListed(tagsBefore, honeypots, names, ids);
      ok := InsertMissing(honeypots, ids);
      if !ok {
        tags, links, nextId := tagsBefore, linksBefore, nextBefore;
        return;
      }
      forall g, name
        ensures Tagged(g, name) <==> Linked(tagsBefore, linksBefore, g, name) || (g in honeypots && name in names)
      {
        AddedLinks(tagsBefore, tags, linksBefore, links, honeypots, names, ids, g, name);
      }
      ghost var first := honeypots[0];
      assert forall id :: id in ids ==> (first, id) in links;
      forall id: nat | Orphan(id)
        ensures id in tagsBefore && forall l :: l in linksBefore ==> l.1 != id
      {
        assert forall l :: l in linksBefore ==> l == (l.0, l.1);
      }
    }

    /** A listed pair is missing as a row exactly when it is missing as a name. */
    lemma TwiceListed(before: map<nat, string>, honeypots: seq<nat>, names: seq<string>, ids: seq<nat>)
      requires Valid() && TagsFor(tags, names, ids) && Grown(before, tags, names)
      requires forall l :: l in links ==> l.1 in before
      requires forall id :: id in ids <==> id in tags && tags[id] in names
      ensures NoRowTwice(links, honeypots, ids) <==> NoNewTagTwice(before, links, honeypots, names)
    {
      forall h: nat, id | id in ids
        ensures (h, id) in links <==> Linked(before, links, h, tags[id])
        ensures Repeated(ids, id) <==> Repeated(names, tags[id])
      {
        RepeatedTag(names, ids, id);
      }
      assert forall k :: 0 <= k < |names| ==> ids[k] in ids && tags[ids[k]] == names[k];
    }

    /** Take the named tags off every listed honeypot. */
    method RemoveTags(honeypots: seq<nat>, names: seq<string>)
      requires Valid()
      modifies this
      ensures Valid()
      ensures forall g, name :: Tagged(g, name) <==> old(Tagged(g, name)) && !(g in honeypots && name in names)
      ensures forall id :: Orphan(id) ==> old(Orphan(id))
    {
      var ids := set id | id in tags && tags[id] in names;
      assert forall id :: id in tags && tags[id] in names ==> id in ids;
      if names == [] || honeypots == [] || ids == {} {
        return;
      }
      links := set l | l in links && !(l.0 in honeypots && l.1 in ids);
      DeleteOrphaned(ids);
    }

    /** Tag the honeypot with exactly the enabled modules, and leave its other tags. */
    method SyncModuleTags(h: nat, enabled: seq<string>)
      requires Valid()
      modifies this
      ensures Valid()
      ensures forall g, name :: Tagged(g, name) <==>
                if g == h then (old(Tagged(h, name)) && name !in vocabulary) || name in enabled
                else old(Tagged(g, name))
      ensures forall id :: Orphan(id) ==> old(Orphan(id))
    {
      var current := set l | l in links && l.0 == h :: tags[l.1];
      assert forall name :: name in current <==> Tagged(h, name);
      var names := (current - vocabulary) + set n | n in enabled;
      if names == current {
        return;
      }
      var list := Listed(names);
      SetTags(h, list);
    }

    /** Deleting a honeypot takes its links with it and leaves the tags as they are: those
        that only it carried become orphans. */
    method DeleteHoneypot(h: nat)
      requires Valid()
      modifies this`links
      ensures Valid()
      ensures forall g, name :: Tagged(g, name) <==> g != h && old(Tagged(g, name))
      ensures forall id :: Orphan(id) <==> id in tags && forall l :: l in old(links) && l.1 == id ==> l.0 == h
    {
      links := set l | l in links && l.0 != h;
    }

    // ---- Runs of operations -------------------------------------------------------------------

    ghost predicate NoOrphans()
      reads this
    {
      forall id :: !Orphan(id)
    }

    /** One operation, on names and honeypots listed once each, as every caller lists them. */
    method Perform(op: Op)
      requires Valid()
      modifies this
      ensures Valid()
      ensures forall g, name :: Tagged(g, name) <==> Carries(vocabulary, op, old(Tagged(g, name)), g, name)
      ensures forall id :: Orphan(id) ==> old(Orphan(id))
    {
      match op
      case Replace(honeypot, names) =>
        var list := Listed(names);
        assert names == set n | n in list;
        SetTags(honeypot, list);
      case Add(honeypots, names) =>
        var list := Listed(names);
        var where := Listed(honeypots);
        assert names == (set n | n in list) && honeypots == set h | h in where;
        var ok := AddTags(where, list);
      case Remove(honeypots, names) =>
        var list := Listed(names);
        var where := Listed(honeypots);
        assert names == (set n | n in list) && honeypots == set h | h in where;
        RemoveTags(where, list);
      case Sync(honeypot, enabled) =>
        var list := Listed(enabled);
        assert enabled == set n | n in list;
        SyncModuleTags(honeypot, list);
    }

    /** Any run of operations: names stay unique, every honeypot carries what the run
        leaves it, and a store without orphans has none at the end. Tags that are no module
        names fare as if no sync had happened; a run of syncs keeps them all, and leaves of
        the module names those of each honeypot's last sync. */
    method Execute(ops: seq<Op>)
      requires Valid()
      requires forall i :: 0 <= i < |ops| && ops[i].Sync? ==> ops[i].enabled <= vocabulary
      modifies this
      ensures Valid()
      ensures forall g, name :: Tagged(g, name) <==> CarriesAfter(vocabulary, ops, old(Tagged(g, name)), g, name)
      ensures old(NoOrphans()) ==> NoOrphans()
      ensures forall g, name :: name !in vocabulary ==>
                (Tagged(g, name) <==> CarriesAfter(vocabulary, WithoutSyncs(ops), old(Tagged(g, name)), g, name))
      ensures (forall i :: 0 <= i < |ops| ==> ops[i].Sync?) ==>
                forall g, name :: Tagged(g, name) <==>
                  if name in vocabulary && Synced(ops, g) then EnabledLast(ops, g, name) else old(Tagged(g, name))
    {
      for k := 0 to |ops|
        invariant Valid()
        invariant forall g, name :: Tagged(g, name) <==>
                    CarriesAfter(vocabulary, ops[..k], old(Tagged(g, name)), g, name)
        invariant forall id :: Orphan(id) ==> old(Orphan(id))
      {
        assert ops[..k + 1][..k] == ops[..k];
        Perform(ops[k]);
      }
      assert ops[..|ops|] == ops;
      forall g, name | name !in vocabulary
        ensures Tagged(g, name) <==> CarriesAfter(vocabulary, WithoutSyncs(ops), old(Tagged(g, name)), g, name)
      {
        SyncsLeaveManualTags(vocabulary, ops, old(Tagged(g, name)), g, name);
      }
      if forall i :: 0 <= i < |ops| ==> ops[i].Sync? {
        forall g, name
          ensures Tagged(g, name) <==>
                    if name in vocabulary && Synced(ops, g) then EnabledLast(ops, g, name) else old(Tagged(g, name))
        {
          SyncsCompose(vocabulary, ops, old(Tagged(g, name)), g, name);
        }
      }
    }
  }
}

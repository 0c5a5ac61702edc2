/**
 * The knowledge memory: three lists that only grow and never hold the same
 * entry twice, updated in place when a report is absorbed and written back
 * to the memory file after each successful absorption.
 */
module Memory {
  import opened Values
  import opened Reports

  /** The contents of the memory file. */
  datatype Store = Store(topics: seq<Option<string>>, keyFacts: seq<string>, crossLinks: seq<string>)

  /** The store written when the memory file does not exist yet. */
  const EmptyStore := Store([], [], [])

  predicate NoDup<T(==)>(s: seq<T>) {
    forall i, j :: 0 <= i < j < |s| ==> s[i] != s[j]
  }

  /** All three lists are free of duplicates. */
  predicate ValidStore(m: Store) {
    NoDup(m.topics) && NoDup(m.keyFacts) && NoDup(m.crossLinks)
  }

  /** `if x not in xs: xs.append(x)`. */
  function AddIfAbsent<T(==)>(xs: seq<T>, x: T): seq<T> {
    if x in xs then xs else xs + [x]
  }

  /** `for x in items: if x not in xs: xs.append(x)`. */
  function AddAll<T(==)>(xs: seq<T>, items: seq<T>): seq<T> {
    if items == [] then xs
    else AddIfAbsent(AddAll(xs, items[..|items| - 1]), items[|items| - 1])
  }

  /** The cross-link label `f"{topic} ↔ {other}"`. */
  function Label(topic: Option<string>, other: Option<string>): string {
    Show(topic) + " \U{2194} " + Show(other)
  }

  /** The labels from `topic` to every entry of `others` that differs from it, in order. */
  function LinksFor(topic: Option<string>, others: seq<Option<string>>): seq<string> {
    if others == [] then []
    else
      var last := others[|others| - 1];
      LinksFor(topic, others[..|others| - 1]) + (if last != topic then [Label(topic, last)] else [])
  }

  /** `report.get("key_findings", [])` when it is a list. */
  function Findings(r: Report): seq<string> {
    match r.keyFindings
    case Val(fs) => fs
    case _ => []
  }

  /**
   * The store after `absorb_report`. When `key_findings` is null the loop
   * over it raises after the topic was appended, so only the topic is new.
   */
  function Absorb(m: Store, r: Report): Store {
    var topic := r.title.Get();
    var topics := AddIfAbsent(m.topics, topic);
    if r.keyFindings.Null? then Store(topics, m.keyFacts, m.crossLinks)
    else
      var links := if |topics| > 1 then AddAll(m.crossLinks, LinksFor(topic, topics)) else m.crossLinks;
      Store(topics, AddAll(m.keyFacts, Findings(r)), links)
  }

  // ---------------------------------------------------------------------
  // The engine

  class MemoryEngine {
    var topics: seq<Option<string>>
    var keyFacts: seq<string>
    var crossLinks: seq<string>
    /** What the memory file holds. */
    var persisted: Store

    function Memory(): Store
      reads this
    {
      Store(topics, keyFacts, crossLinks)
    }

    /** Opens the memory file, creating it with three empty lists when it is missing. */
    constructor(file: Option<Store>)
      ensures Memory() == (if file.Some? then file.value else EmptyStore)
      ensures persisted == Memory()
    {
      var m := if file.Some? then file.value else EmptyStore;
      topics, keyFacts, crossLinks := m.topics, m.keyFacts, m.crossLinks;
      persisted := m;
    }

    /**
     * `absorb_report`: records the topic, the new key facts and the links
     * from the topic to every other topic, then saves. `ok` is false when
     * the report's null `key_findings` made it raise before saving.
     */
    method AbsorbReport(report: Report) returns (ok: bool)
      modifies this
      ensures Memory() == Absorb(old(Memory()), report)
      ensures ok <==> !report.keyFindings.Null?
      ensures persisted == if ok then Memory() else old(persisted)
    {
      var topic := report.title.Get();
      if topic !in topics {
        topics := topics + [topic];
      }
      var findings: seq<string>;
      match report.keyFindings {
        case Null =>
          ok := false;
          return;
        case Absent =>
          findings := [];
        case Val(fs) =>
          findings := fs;
      }
      var ts := topics;
      assert ts == AddIfAbsent(old(topics), topic);
      AddFacts(findings);
      if |ts| > 1 {
        AddLinks(topic);
      }
      persisted := Memory();
      ok := true;
    }

    /** The loop over the key findings: each new one is appended. */
    method AddFacts(findings: seq<string>)
      modifies this
      ensures keyFacts == AddAll(old(keyFacts), findings)
      ensures topics == old(topics) && crossLinks == old(crossLinks) && persisted == old(persisted)
    {
      var facts0 := keyFacts;
      for i := 0 to |findings|
        invariant topics == old(topics) && crossLinks == old(crossLinks) && persisted == old(persisted)
        invariant keyFacts == AddAll(facts0, findings[..i])
      {
        AddAllStep(facts0, findings, i);
        if findings[i] !in keyFacts {
          keyFacts := keyFacts + [findings[i]];
        }
      }
      assert findings[..|findings|] == findings;
    }

    /** The loop over the topics: a link from `topic` to every other topic, each new one appended. */
    method AddLinks(topic: Option<string>)
      modifies this
      ensures crossLinks == AddAll(old(crossLinks), LinksFor(topic, topics))
      ensures topics == old(topics) && keyFacts == old(keyFacts) && persisted == old(persisted)
    {
      var ts, links0 := topics, crossLinks;
      for i := 0 to |ts|
        invariant topics == ts && keyFacts == old(keyFacts) && persisted == old(persisted)
        invariant crossLinks == AddAll(links0, LinksFor(topic, ts[..i]))
      {
        LinksForStep(topic, ts, i);
        var other := ts[i];
        if other == topic {
          assert LinksFor(topic, ts[..i + 1]) == LinksFor(topic, ts[..i]);
        } else {
          var link := Label(topic, other);
          AddAllSnoc(links0, LinksFor(topic, ts[..i]), link);
          if link !in crossLinks {
            crossLinks := crossLinks + [link];
          }
        }
      }
      assert ts[..|ts|] == ts;
    }

    /** `recall`: the store as it is, unchanged. */
    method Recall() returns (m: Store)
      ensures m == Memory()
    {
      m := Store(topics, keyFacts, crossLinks);
    }
  }

  // ---------------------------------------------------------------------
  // Properties of absorption

  /** One more item handled by `AddAll`. */
  lemma AddAllSnoc<T>(xs: seq<T>, items: seq<T>, x: T)
    ensures AddAll(xs, items + [x]) == AddIfAbsent(AddAll(xs, items), x)
  {
    assert (items + [x])[..|items|] == items;
  }

  /** The step of the loop over the findings. */
  lemma AddAllStep<T>(xs: seq<T>, items: seq<T>, i: nat)
    requires i < |items|
    ensures AddAll(xs, items[..i + 1]) == AddIfAbsent(AddAll(xs, items[..i]), items[i])
  {
    assert items[..i + 1] == items[..i] + [items[i]];
    AddAllSnoc(xs, items[..i], items[i]);
  }

  /** The step of the loop over the topics. */
  lemma LinksForStep(topic: Option<string>, others: seq<Option<string>>, i: nat)
    requires i < |others|
    ensures LinksFor(topic, others[..i + 1])
              == LinksFor(topic, others[..i]) + (if others[i] != topic then [Label(topic, others[i])] else [])
  {
    assert others[..i + 1][..i] == others[..i];
  }

  /** `AddAll` keeps what was there, in place. */
  lemma {:induction false} AddAllPrefix<T>(xs: seq<T>, items: seq<T>)
    ensures |xs| <= |AddAll(xs, items)| && AddAll(xs, items)[..|xs|] == xs
    decreases |items|
  {
    if items != [] {
      AddAllPrefix(xs, items[..|items| - 1]);
    }
  }

  /** `AddAll` keeps what was there, in place, and adds exactly the missing items. */
  lemma {:induction false} AddAllGrows<T>(xs: seq<T>, items: seq<T>)
    ensures |xs| <= |AddAll(xs, items)| && AddAll(xs, items)[..|xs|] == xs
    ensures forall x :: x in AddAll(xs, items) <==> x in xs || x in items
    decreases |items|
  {
    if items != [] {
      var front := items[..|items| - 1];
      AddAllGrows(xs, front);
      assert items == front + [items[|items| - 1]];
    }
  }

  /** `AddAll` adds nothing twice and keeps a duplicate-free list duplicate-free. */
  lemma {:induction false} AddAllNoDup<T>(xs: seq<T>, items: seq<T>)
    requires NoDup(xs)
    ensures NoDup(AddAll(xs, items))
    decreases |items|
  {
    if items != [] {
      AddAllNoDup(xs, items[..|items| - 1]);
    }
  }

  /** Adding items that are all present already changes nothing. */
  lemma {:induction false} AddAllPresent<T>(xs: seq<T>, items: seq<T>)
    requires forall i :: 0 <= i < |items| ==> items[i] in xs
    ensures AddAll(xs, items) == xs
    decreases |items|
  {
    if items != [] {
      AddAllPresent(xs, items[..|items| - 1]);
    }
  }

  /** `LinksFor` holds the label to each differing entry and nothing else. */
  lemma {:induction false} LinksForMembers(topic: Option<string>, others: seq<Option<string>>)
    ensures forall o :: o in others && o != topic ==> Label(topic, o) in LinksFor(topic, others)
    ensures forall l :: l in LinksFor(topic, others) ==> exists o :: o in others && o != topic && l == Label(topic, o)
    decreases |others|
  {
    if others != [] {
      var front := others[..|others| - 1];
      LinksForMembers(topic, front);
      assert others == front + [others[|others| - 1]];
    }
  }

  /** The absorbed report's title is a topic, exactly once when the topics were duplicate-free. */
  lemma AbsorbRecordsTopic(m: Store, r: Report)
    requires NoDup(m.topics)
    ensures r.title.Get() in Absorb(m, r).topics
    ensures NoDup(Absorb(m, r).topics)
    ensures forall i, j :: (0 <= i < |Absorb(m, r).topics| && 0 <= j < |Absorb(m, r).topics|
              && Absorb(m, r).topics[i] == r.title.Get() && Absorb(m, r).topics[j] == r.title.Get()) ==> i == j
  {
  }

  /** Absorption keeps the three lists duplicate-free. */
  lemma AbsorbKeepsValid(m: Store, r: Report)
    requires ValidStore(m)
    ensures ValidStore(Absorb(m, r))
  {
    var topic := r.title.Get();
    var topics := AddIfAbsent(m.topics, topic);
    AddAllNoDup(m.keyFacts, Findings(r));
    AddAllNoDup(m.crossLinks, LinksFor(topic, topics));
  }

  /** Absorption only appends: every list keeps its old entries, in their places. */
  lemma AbsorbAppendOnly(m: Store, r: Report)
    ensures var n := Absorb(m, r);
      && |m.topics| <= |n.topics| && n.topics[..|m.topics|] == m.topics
      && |m.keyFacts| <= |n.keyFacts| && n.keyFacts[..|m.keyFacts|] == m.keyFacts
      && |m.crossLinks| <= |n.crossLinks| && n.crossLinks[..|m.crossLinks|] == m.crossLinks
  {
    var topic := r.title.Get();
    var topics := AddIfAbsent(m.topics, topic);
    assert topics[..|m.topics|] == m.topics;
    if !r.keyFindings.Null? {
      AddAllPrefix(m.keyFacts, Findings(r));
      if |topics| > 1 {
        AddAllPrefix(m.crossLinks, LinksFor(topic, topics));
      }
    }
  }

  /**
   * After a successful absorption every key finding is a key fact, and
   * with more than one topic the title is linked to every other topic;
   * with a single topic no link is added.
   */
  lemma AbsorbFactsAndLinks(m: Store, r: Report)
    requires !r.keyFindings.Null?
    ensures forall f :: f in Findings(r) ==> f in Absorb(m, r).keyFacts
    ensures var n := Absorb(m, r);
      |n.topics| > 1 ==> forall o :: o in n.topics && o != r.title.Get() ==> Label(r.title.Get(), o) in n.crossLinks
    ensures |Absorb(m, r).topics| <= 1 ==> Absorb(m, r).crossLinks == m.crossLinks
  {
    var topic := r.title.Get();
    var topics := AddIfAbsent(m.topics, topic);
    AddAllGrows(m.keyFacts, Findings(r));
    AddAllGrows(m.crossLinks, LinksFor(topic, topics));
    LinksForMembers(topic, topics);
  }

  /** Absorbing the same report a second time changes nothing. */
  lemma AbsorbIdempotent(m: Store, r: Report)
    ensures Absorb(Absorb(m, r), r) == Absorb(m, r)
  {
    var n := Absorb(m, r);
    var topic := r.title.Get();
    assert AddIfAbsent(n.topics, topic) == n.topics;
    if !r.keyFindings.Null? {
      AddAllGrows(m.keyFacts, Findings(r));
      AddAllPresent(n.keyFacts, Findings(r));
      if |n.topics| > 1 {
        var links := LinksFor(topic, n.topics);
        AddAllGrows(m.crossLinks, links);
        AddAllPresent(n.crossLinks, links);
      }
    }
  }

  /** Every pair of distinct topics is linked from the later one to the earlier one. */
  predicate Linked(m: Store) {
    forall i, j :: 0 <= i < j < |m.topics| && m.topics[i] != m.topics[j] ==>
      Label(m.topics[j], m.topics[i]) in m.crossLinks
  }

  /** A successful absorption keeps every pair of topics linked. */
  lemma AbsorbKeepsLinked(m: Store, r: Report)
    requires Linked(m) && !r.keyFindings.Null?
    ensures Linked(Absorb(m, r))
  {
    var n := Absorb(m, r);
    var topic := r.title.Get();
    AbsorbAppendOnly(m, r);
    AbsorbFactsAndLinks(m, r);
    forall i, j | 0 <= i < j < |n.topics| && n.topics[i] != n.topics[j]
      ensures Label(n.topics[j], n.topics[i]) in n.crossLinks
    {
      if j < |m.topics| {
        assert Label(m.topics[j], m.topics[i]) in m.crossLinks;
        assert m.crossLinks == n.crossLinks[..|m.crossLinks|];
      } else {
        assert n.topics[j] == topic;
      }
    }
  }

  /** A new topic is appended at the end, and the pairs stay linked. */
  lemma AbsorbNewTopic(m: Store, r: Report)
    requires Linked(m) && !r.keyFindings.Null? && r.title.Get() !in m.topics
    ensures Absorb(m, r).topics == m.topics + [r.title.Get()]
    ensures Linked(Absorb(m, r))
  {
    AbsorbKeepsLinked(m, r);
  }

  /** One pair of a linked store. */
  lemma LinkedPair(m: Store, i: nat, j: nat)
    requires Linked(m) && i < j < |m.topics| && m.topics[i] != m.topics[j]
    ensures Label(m.topics[j], m.topics[i]) in m.crossLinks
  {
  }

  /** The store after absorbing `rs` in order. */
  function AbsorbAll(m: Store, rs: seq<Report>): Store
    decreases |rs|
  {
    if rs == [] then m else Absorb(AbsorbAll(m, rs[..|rs| - 1]), rs[|rs| - 1])
  }

  /** The reports' titles as topics, in order. */
  function Titles(rs: seq<Report>): (ts: seq<Option<string>>)
    ensures |ts| == |rs| && forall i :: 0 <= i < |rs| ==> ts[i] == rs[i].title.Get()
  {
    seq(|rs|, i requires 0 <= i < |rs| => rs[i].title.Get())
  }

  /**
   * Reports with distinct titles and key findings, absorbed in order into
   * a fresh store, leave their titles as the topics, in order, and every
   * later topic linked to every earlier one.
   */
  lemma {:induction false} FreshTopicsLinked(rs: seq<Report>)
    requires forall i :: 0 <= i < |rs| ==> rs[i].title.Val? && !rs[i].keyFindings.Null?
    requires forall i, j :: 0 <= i < j < |rs| ==> rs[i].title != rs[j].title
    ensures AbsorbAll(EmptyStore, rs).topics == Titles(rs)
    ensures Linked(AbsorbAll(EmptyStore, rs))
    decreases |rs|
  {
    if rs != [] {
      var init, r := rs[..|rs| - 1], rs[|rs| - 1];
      assert init + [r] == rs;
      FreshTopicsLinked(init);
      FreshStep(AbsorbAll(EmptyStore, init), init, r);
    }
  }

  /** One step of `FreshTopicsLinked`: a report whose title is new. */
  lemma FreshStep(prev: Store, init: seq<Report>, r: Report)
    requires prev.topics == Titles(init) && Linked(prev)
    requires r.title.Val? && !r.keyFindings.Null?
    requires forall i :: 0 <= i < |init| ==> init[i].title != r.title
    ensures Absorb(prev, r).topics == Titles(init + [r])
    ensures Linked(Absorb(prev, r))
  {
    assert r.title.Get() !in prev.topics by {
      forall i | 0 <= i < |init| ensures prev.topics[i] != r.title.Get() {
        assert init[i].title != r.title;
      }
    }
    AbsorbNewTopic(prev, r);
    assert Titles(init + [r]) == Titles(init) + [r.title.Get()];
  }

  /** A single absorbed topic gets no link. */
  lemma OneTopicNoLink(r: Report)
    ensures Absorb(EmptyStore, r).crossLinks == []
  {
  }
}

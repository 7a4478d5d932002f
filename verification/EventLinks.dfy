/** How the JSON events of a hash-linked log make a hash chain: the hashed message of an event
    without its hash fixes the previous hash and the body, up to the order of members. */
module EventLinks {
  import opened Encodings
  import opened CanonicalJson
  import opened Dictionaries
  import opened HashChain

  const PREV := "prev_event_hash"
  const HASH := "event_hash"

  type EventLink<+N> = Link<map<string, Value<N>>>

  ghost function LinkOf<N>(st: Style<N>, d: Dict<N>, hash: string): (k: EventLink<N>)
    requires Get(d, PREV).Str?
  {
    Link(Get(d, PREV).s, Meaning(d), MessageOf(st, d), hash)
  }

  ghost predicate IsLinkOf<N>(st: Style<N>, k: EventLink<N>, d: Dict<N>) {
    ValidDict(d) && Get(d, PREV).Str? && k == LinkOf(st, d, k.hash)
  }

  ghost predicate HasEvent<N(!new)>(st: Style<N>, k: EventLink<N>) { exists d :: IsLinkOf(st, k, d) }

  ghost predicate FromEvents<N(!new)>(st: Style<N>, c: seq<EventLink<N>>) {
    forall i :: 0 <= i < |c| ==> HasEvent(st, c[i])
  }

  lemma SameMessageSameEvent<N(!new)>(st: Style<N>, k: EventLink<N>, d: Dict<N>, l: EventLink<N>, e: Dict<N>)
    requires Lawful(st) && IsLinkOf(st, k, d) && IsLinkOf(st, l, e) && k.message == l.message
    ensures k.prev == l.prev && k.body == l.body
  {
    hide MessageOf, Names, WellFormed, Lawful;
    MessageFixesMeaning(st, d, e);
    MeaningOfKey(d, PREV);
    MeaningOfKey(e, PREV);
    assert Denote(Get(d, PREV)) == VStr(k.prev) && Denote(Get(e, PREV)) == VStr(l.prev);
  }

  /** Canonical text determines the event, so events make faithful chains. */
  lemma EventsFaithful<N(!new)>(st: Style<N>, a: seq<EventLink<N>>, b: seq<EventLink<N>>)
    requires Lawful(st) && FromEvents(st, a) && FromEvents(st, b)
    ensures Faithful(a, b)
  {
    hide Lawful, IsLinkOf;
    forall i, j | 0 <= i < |a| && 0 <= j < |b| && a[i].message == b[j].message
      ensures a[i].prev == b[j].prev && a[i].body == b[j].body
    {
      assert HasEvent(st, a[i]) && HasEvent(st, b[j]);
      var d :| IsLinkOf(st, a[i], d);
      var e :| IsLinkOf(st, b[j], e);
      SameMessageSameEvent(st, a[i], d, b[j], e);
    }
  }

  lemma EmptyChain<N(!new)>(sha256: Bytes -> string, st: Style<N>)
    ensures Linked<map<string, Value<N>>>(sha256, []) && FromEvents(st, [])
  {
  }

  lemma AppendFromEvent<N(!new)>(st: Style<N>, c: seq<EventLink<N>>, d: Dict<N>, hash: string)
    requires FromEvents(st, c) && ValidDict(d) && Get(d, PREV).Str?
    ensures FromEvents(st, c + [LinkOf(st, d, hash)])
  {
    hide LinkOf, IsLinkOf;
    var e := c + [LinkOf(st, d, hash)];
    forall i | 0 <= i < |e| ensures HasEvent(st, e[i]) {
      if i < |c| {
        assert e[i] == c[i];
      } else {
        LinkOfIsLink(st, d, hash);
        assert IsLinkOf(st, e[i], d);
      }
    }
  }

  lemma LinkOfIsLink<N>(st: Style<N>, d: Dict<N>, hash: string)
    requires ValidDict(d) && Get(d, PREV).Str?
    ensures IsLinkOf(st, LinkOf(st, d, hash), d)
  {
    hide MessageOf, Meaning;
  }
}

/** Python dictionaries with string keys, as the lists of members they are written from, and
    what get, assignment and removal do to the map that such a list stands for. */
module Dictionaries {
  import opened CanonicalJson
  import opened Encodings

  /** One line of a JSON-lines file as a reader sees it. */
  datatype Line<+N> = Blank | Unparsable | Parsed(value: Json<N>)

  ghost predicate LinesValid<N>(lines: seq<Line<N>>) {
    forall i :: 0 <= i < |lines| && lines[i].Parsed? ==> WellFormed(lines[i].value)
  }

  type Dict<+N> = seq<Member<N>>

  ghost predicate ValidDict<N>(d: Dict<N>) { WellFormed(Obj(d)) }

  ghost function Meaning<N>(d: Dict<N>): (m: map<string, Value<N>>) { Denote(Obj(d)).members }

  function Get<N>(d: Dict<N>, k: string): (r: Json<N>) {
    if k in Names(d) then Lookup(d, k) else Null
  }

  /** d[k] = v: an existing key keeps its place. */
  function Put<N>(d: Dict<N>, k: string, v: Json<N>): (r: Dict<N>)
    ensures forall n :: n in Names(r) <==> n == k || n in Names(d)
  {
    if d == [] then [Member(k, v)]
    else if d[0].key == k then [Member(k, v)] + d[1..]
    else [d[0]] + Put(d[1..], k, v)
  }

  /** d without key k. */
  function Without<N>(d: Dict<N>, k: string): (r: Dict<N>)
    ensures |r| <= |d|
    ensures forall n :: n in Names(r) <==> n != k && n in Names(d)
  {
    if d == [] then []
    else if d[0].key == k then Without(d[1..], k)
    else [d[0]] + Without(d[1..], k)
  }

  lemma ValidTail<N>(d: Dict<N>)
    requires ValidDict(d) && d != []
    ensures ValidDict(d[1..]) && d[0].key !in Names(d[1..])
    ensures WellFormed(d[0].value)
  {
    var ns := Names(d);
    assert ns == [d[0].key] + Names(d[1..]);
    assert forall i :: 0 <= i < |d[1..]| ==> Names(d[1..])[i] == ns[i + 1];
  }

  lemma ValidCons<N>(m: Member<N>, d: Dict<N>)
    requires ValidDict(d) && m.key !in Names(d) && WellFormed(m.value)
    ensures ValidDict([m] + d)
  {
    assert ([m] + d)[1..] == d;
    assert Names([m] + d) == [m.key] + Names(d);
  }

  lemma {:induction false} PutGet<N>(d: Dict<N>, k: string, v: Json<N>)
    requires ValidDict(d) && WellFormed(v)
    ensures ValidDict(Put(d, k, v)) && Get(Put(d, k, v), k) == v
    ensures forall n :: n != k ==> Get(Put(d, k, v), n) == Get(d, n)
  {
    if d == [] {
      assert Names(Put(d, k, v)) == [k];
    } else {
      ValidTail(d);
      var r := Put(d, k, v);
      if d[0].key == k {
        assert r[1..] == d[1..];
        ValidCons(Member(k, v), d[1..]);
      } else {
        PutGet(d[1..], k, v);
        assert r[1..] == Put(d[1..], k, v);
        ValidCons(d[0], r[1..]);
      }
      forall n ensures Get(r, n) == if n == k then v else Get(d, n) {
        GetCons(r, n);
        GetCons(d, n);
      }
    }
  }

  lemma GetCons<N>(d: Dict<N>, n: string)
    requires d != []
    ensures Get(d, n) == if d[0].key == n then d[0].value else Get(d[1..], n)
  {
    assert Names(d) == [d[0].key] + Names(d[1..]);
  }

  /** The first member of a name is the one that is found. */
  lemma {:induction false} GetAt<N>(d: Dict<N>, i: nat)
    requires i < |d| && forall j :: 0 <= j < i ==> d[j].key != d[i].key
    ensures Get(d, d[i].key) == d[i].value
  {
    hide Get;
    GetCons(d, d[i].key);
    if i > 0 { GetAt(d[1..], i - 1); }
  }

  lemma {:induction false} WithoutGet<N>(d: Dict<N>, k: string)
    requires ValidDict(d)
    ensures ValidDict(Without(d, k))
    ensures forall n :: n != k ==> Get(Without(d, k), n) == Get(d, n)
  {
    if d != [] {
      ValidTail(d);
      WithoutGet(d[1..], k);
      var rest, r := Without(d[1..], k), Without(d, k);
      if d[0].key == k {
        assert r == rest;
      } else {
        assert r[1..] == rest;
        ValidCons(d[0], rest);
      }
      forall n | n != k ensures Get(r, n) == Get(d, n) {
        GetCons(d, n);
        if d[0].key != k { GetCons(r, n); }
      }
    }
  }

  lemma MeaningByKeys<N>(d: Dict<N>, e: Dict<N>)
    requires forall n :: n in Names(d) <==> n in Names(e)
    requires forall n :: n in Names(d) ==> Denote(Get(d, n)) == Denote(Get(e, n))
    ensures Meaning(d) == Meaning(e) && Denote(Obj(d)) == Denote(Obj(e))
  {
    forall n | n in Names(d) ensures Denote(Lookup(d, n)) == Denote(Lookup(e, n)) {
      assert Denote(Get(d, n)) == Denote(Get(e, n));
    }
    assert Denote(Obj(d)).members == Denote(Obj(e)).members;
  }

  lemma MeaningOfKey<N>(d: Dict<N>, k: string)
    ensures k in Meaning(d) <==> k in Names(d)
    ensures k in Names(d) ==> Meaning(d)[k] == Denote(Get(d, k))
  {
  }

  /** The bytes that are hashed for a dictionary. */
  function MessageOf<N>(st: Style<N>, d: Dict<N>): (b: Bytes) { Utf8(Canon(st, Obj(d))) }

  lemma MessageFixesMeaning<N(!new)>(st: Style<N>, d: Dict<N>, e: Dict<N>)
    requires Lawful(st) && ValidDict(d) && ValidDict(e)
    ensures MessageOf(st, d) == MessageOf(st, e) <==> Meaning(d) == Meaning(e)
  {
    hide Canon, Utf8, Lawful;
    CanonicalTextIffSameMeaning(st, Obj(d), Obj(e));
    if MessageOf(st, d) == MessageOf(st, e) { Utf8Injective(Canon(st, Obj(d)), Canon(st, Obj(e))); }
  }
}

/** What every hash-linked log in the program promises: its head fixes its whole contents, unless
    two hashed messages collide or one of them hashes to the genesis value. */
module HashChain {
  import opened Encodings

  /** The previous-hash value of a first entry: sixty-four zeros. */
  const GENESIS: string := "0000000000000000000000000000000000000000000000000000000000000000"

  /** One entry: what it says, the exact bytes that were hashed, and its hash. */
  datatype Link<+B> = Link(prev: string, body: B, message: Bytes, hash: string)

  function Head<B>(c: seq<Link<B>>): (h: string) {
    if c == [] then GENESIS else c[|c| - 1].hash
  }

  ghost predicate Linked<B>(sha256: Bytes -> string, c: seq<Link<B>>) {
    forall i :: 0 <= i < |c| ==> c[i].prev == Head(c[..i]) && c[i].hash == sha256(c[i].message)
  }

  /** The hashed bytes of an entry determine what it says. */
  ghost predicate Faithful<B>(a: seq<Link<B>>, b: seq<Link<B>>) {
    forall i, j :: 0 <= i < |a| && 0 <= j < |b| && a[i].message == b[j].message ==>
      a[i].prev == b[j].prev && a[i].body == b[j].body
  }

  /** Two entries, one of each log, whose different messages hash alike. */
  ghost predicate Collide<B>(sha256: Bytes -> string, a: seq<Link<B>>, b: seq<Link<B>>) {
    exists i, j :: 0 <= i < |a| && 0 <= j < |b| &&
      a[i].message != b[j].message && sha256(a[i].message) == sha256(b[j].message)
  }

  ghost predicate HitsGenesis<B>(sha256: Bytes -> string, c: seq<Link<B>>) {
    exists i :: 0 <= i < |c| && sha256(c[i].message) == GENESIS
  }

  lemma LinkedPrefix<B>(sha256: Bytes -> string, c: seq<Link<B>>, n: nat)
    requires Linked(sha256, c) && n <= |c|
    ensures Linked(sha256, c[..n])
  {
    forall i | 0 <= i < n ensures c[..n][i].prev == Head(c[..n][..i]) && c[..n][i].hash == sha256(c[i].message) {
      assert c[..n][..i] == c[..i];
    }
  }

  lemma FaithfulPrefixes<B>(a: seq<Link<B>>, b: seq<Link<B>>, n: nat)
    requires Faithful(a, b) && n <= |a| && n <= |b|
    ensures Faithful(a[..n], b[..n])
  {
    assert forall i :: 0 <= i < n ==> a[..n][i] == a[i];
    assert forall i :: 0 <= i < n ==> b[..n][i] == b[i];
  }

  lemma LinkedAppend<B>(sha256: Bytes -> string, c: seq<Link<B>>, l: Link<B>)
    requires Linked(sha256, c) && l.prev == Head(c) && l.hash == sha256(l.message)
    ensures Linked(sha256, c + [l]) && Head(c + [l]) == l.hash
  {
    var d := c + [l];
    forall i | 0 <= i < |d| ensures d[i].prev == Head(d[..i]) && d[i].hash == sha256(d[i].message) {
      assert d[..i] == c[..i];
      assert c[..|c|] == c;
    }
  }

  lemma LinkedSnoc<B>(sha256: Bytes -> string, c: seq<Link<B>>, l: Link<B>)
    ensures Linked(sha256, c + [l]) <==> Linked(sha256, c) && l.prev == Head(c) && l.hash == sha256(l.message)
  {
    hide Head, Linked;
    if Linked(sha256, c + [l]) {
      LinkedPrefix(sha256, c + [l], |c|);
      LastIsLinked(sha256, c + [l]);
      assert (c + [l])[..|c|] == c;
    }
    if Linked(sha256, c) && l.prev == Head(c) && l.hash == sha256(l.message) { LinkedAppend(sha256, c, l); }
  }

  lemma LastIsLinked<B>(sha256: Bytes -> string, c: seq<Link<B>>)
    requires Linked(sha256, c) && c != []
    ensures var n := |c| - 1; c[n].prev == Head(c[..n]) && c[n].hash == sha256(c[n].message)
  {
  }

  lemma HitsGenesisWeaken<B>(sha256: Bytes -> string, c: seq<Link<B>>, l: Link<B>)
    requires HitsGenesis(sha256, c)
    ensures HitsGenesis(sha256, c + [l])
  {
    var i :| 0 <= i < |c| && sha256(c[i].message) == GENESIS;
    assert (c + [l])[i] == c[i];
  }

  lemma CollideWeaken<B>(sha256: Bytes -> string, a: seq<Link<B>>, x: Link<B>, b: seq<Link<B>>, y: Link<B>)
    requires Collide(sha256, a, b)
    ensures Collide(sha256, a + [x], b + [y])
  {
    var i, j :| 0 <= i < |a| && 0 <= j < |b| &&
      a[i].message != b[j].message && sha256(a[i].message) == sha256(b[j].message);
    assert (a + [x])[i] == a[i] && (b + [y])[j] == b[j];
  }

  /** One step back from equal heads. */
  lemma LastEntries<B>(sha256: Bytes -> string, a: seq<Link<B>>, x: Link<B>, b: seq<Link<B>>, y: Link<B>)
    requires Linked(sha256, a + [x]) && Linked(sha256, b + [y]) && Faithful(a + [x], b + [y])
    requires x.hash == y.hash
    ensures Linked(sha256, a) && Linked(sha256, b) && Faithful(a, b)
    ensures Collide(sha256, a + [x], b + [y]) || (x == y && Head(a) == Head(b))
  {
    var c, d := a + [x], b + [y];
    LinkedPrefix(sha256, c, |a|);
    LinkedPrefix(sha256, d, |b|);
    assert c[..|a|] == a && d[..|b|] == b && c[|a|] == x && d[|b|] == y;
    forall i, j | 0 <= i < |a| && 0 <= j < |b| && a[i].message == b[j].message
      ensures a[i].prev == b[j].prev && a[i].body == b[j].body
    {
      assert c[i] == a[i] && d[j] == b[j];
    }
  }

  lemma GenesisHead<B>(sha256: Bytes -> string, c: seq<Link<B>>)
    requires Linked(sha256, c) && c != [] && Head(c) == GENESIS
    ensures HitsGenesis(sha256, c)
  {
    assert sha256(c[|c| - 1].message) == GENESIS;
  }

  /** Logs with the same head are the same log, unless the hash function failed on messages
      that are in them. */
  lemma {:induction false} HeadFixesLog<B>(sha256: Bytes -> string, a: seq<Link<B>>, b: seq<Link<B>>)
    requires Linked(sha256, a) && Linked(sha256, b) && Faithful(a, b) && Head(a) == Head(b)
    ensures a == b || Collide(sha256, a, b) || (|a| != |b| && (HitsGenesis(sha256, a) || HitsGenesis(sha256, b)))
    decreases |a|
  {
    hide Linked, Faithful, Collide, HitsGenesis;
    if a == [] || b == [] {
      if a != [] { GenesisHead(sha256, a); }
      if b != [] { GenesisHead(sha256, b); }
    } else {
      var p, x, q, y := a[..|a| - 1], a[|a| - 1], b[..|b| - 1], b[|b| - 1];
      assert a == p + [x] && b == q + [y];
      LastEntries(sha256, p, x, q, y);
      if !Collide(sha256, a, b) {
        HeadFixesLog(sha256, p, q);
        if Collide(sha256, p, q) { CollideWeaken(sha256, p, x, q, y); }
        if HitsGenesis(sha256, p) { HitsGenesisWeaken(sha256, p, x); }
        if HitsGenesis(sha256, q) { HitsGenesisWeaken(sha256, q, y); }
      }
    }
  }
}

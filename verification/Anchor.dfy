/** Repository anchors: a signed payload that pins the audit file and the stored objects. */
module Anchor {
  import opened Wrappers
  import opened Encodings
  import opened Sorting
  import opened Merkle
  import opened HashChain
  import opened Dictionaries
  import opened EventLinks
  import opened PythonJson
  import AuditLog

  /** An audit line as audit_at reads it; at a line without an event hash it raises. */
  datatype AuditLine = BlankLine | HashLine(hash: string) | BadLine

  /** What an anchor looks at: the audit lines and the digests in the objects table. */
  datatype View = View(audit: seq<AuditLine>, objects: set<string>)

  datatype Payload = Payload(auditCount: int, auditHead: string, objectCount: nat, objects: seq<string>, root: Bytes)

  datatype Finding =
    | AuditAnchorMismatch(expected: string, actual: string)
    | AnchoredObjectsMissing(missing: seq<string>)
    | MerkleRootMismatch

  predicate Readable(audit: seq<AuditLine>) { forall i :: 0 <= i < |audit| ==> !audit[i].BadLine? }

  function Hashes(audit: seq<AuditLine>): (r: seq<string>) {
    if audit == [] then []
    else
      var n := |audit| - 1;
      Hashes(audit[..n]) + if audit[n].HashLine? then [audit[n].hash] else []
  }

  /** hashes[:count], where a negative count drops from the end. */
  function Take(hashes: seq<string>, count: int): (r: seq<string>) {
    if count >= |hashes| then hashes
    else if count >= 0 then hashes[..count]
    else if |hashes| + count >= 0 then hashes[..|hashes| + count]
    else []
  }

  /** As many of the first hashes as there are, or all but as many of the last. */
  lemma TakeMeans(hashes: seq<string>, count: int)
    ensures Take(hashes, count) <= hashes
    ensures 0 <= count <= |hashes| ==> |Take(hashes, count)| == count
    ensures -|hashes| <= count < 0 ==> |Take(hashes, count)| == |hashes| + count
    ensures count > |hashes| ==> Take(hashes, count) == hashes
    ensures count < -|hashes| ==> Take(hashes, count) == []
  {
  }

  function LastOr(hashes: seq<string>): (h: string) {
    if hashes == [] then GENESIS else hashes[|hashes| - 1]
  }

  /** The head, number and list of the first hashes; None where it raises. */
  method AuditAt(audit: seq<AuditLine>, count: Option<int>) returns (r: Option<(string, nat, seq<string>)>)
    ensures r.Some? <==> Readable(audit)
    ensures r.Some? ==> r.value.2 == if count == None then Hashes(audit) else Take(Hashes(audit), count.value)
    ensures r.Some? ==> r.value.0 == LastOr(r.value.2) && r.value.1 == |r.value.2|
  {
    var hashes := [];
    for i := 0 to |audit|
      invariant hashes == Hashes(audit[..i]) && Readable(audit[..i])
    {
      assert audit[..i + 1][..i] == audit[..i];
      if audit[i].BadLine? { return None; }
      if audit[i].HashLine? { hashes := hashes + [audit[i].hash]; }
    }
    assert audit[..|audit|] == audit;
    if count.Some? { hashes := Take(hashes, count.value); }
    r := Some((LastOr(hashes), |hashes|, hashes));
  }

  function Tagged(tag: string, xs: seq<string>): (r: seq<string>)
    ensures |r| == |xs|
  {
    if xs == [] then [] else [tag + xs[0]] + Tagged(tag, xs[1..])
  }

  function Leaves(audits: seq<string>, objects: seq<string>): (r: seq<string>) {
    Tagged("audit:", audits) + Tagged("object:", objects)
  }

  lemma {:induction false} TaggedMean(tag: string, xs: seq<string>, y: string)
    ensures y in Tagged(tag, xs) <==> exists x :: x in xs && y == tag + x
  {
    if xs != [] {
      TaggedMean(tag, xs[1..], y);
      assert xs == [xs[0]] + xs[1..];
    }
  }

  /** The leaves are the audit hashes and the object digests, told apart by what is put before them. */
  lemma LeavesMean(audits: seq<string>, objects: seq<string>, y: string)
    ensures |Leaves(audits, objects)| == |audits| + |objects|
    ensures y in Leaves(audits, objects) <==>
      (exists x :: x in audits && y == "audit:" + x) || (exists x :: x in objects && y == "object:" + x)
  {
    hide Tagged;
    TaggedMean("audit:", audits, y);
    TaggedMean("object:", objects, y);
  }

  /** The digests of a view in the order object_digests lists them. */
  ghost predicate Listing(objects: set<string>, list: seq<string>) {
    SortedBy(CodePointLe, list) && multiset(list) == multiset(objects)
  }

  ghost function Create(h: Bytes -> Bytes, v: View, list: seq<string>): (p: Payload) {
    var audits := Hashes(v.audit);
    Payload(|audits|, LastOr(audits), |list|, list, Root(h, Leaves(audits, list)))
  }

  method CreateAnchor(h: Bytes -> Bytes, v: View, list: seq<string>) returns (r: Option<Payload>)
    requires Listing(v.objects, list)
    ensures r == if Readable(v.audit) then Some(Create(h, v, list)) else None
  {
    var at := AuditAt(v.audit, None);
    if at == None { return None; }
    var (head, count, audits) := at.value;
    var root := MerkleRoot(h, Tagged("audit:", audits) + Tagged("object:", list));
    r := Some(Payload(count, head, |list|, list, root));
  }

  /** No finding at all, as a property of the payload and the repository. */
  ghost predicate Clean(h: Bytes -> Bytes, p: Payload, v: View) {
    var audits := Take(Hashes(v.audit), p.auditCount);
    && Readable(v.audit)
    && |audits| == p.auditCount
    && LastOr(audits) == p.auditHead
    && (forall d :: d in p.objects ==> d in v.objects)
    && Root(h, Leaves(audits, p.objects)) == p.root
  }

  /** The anchored digests that are not among the current ones. */
  function Lacking(objects: seq<string>, current: set<string>): (r: set<string>) {
    set d | d in objects && d !in current
  }

  /** The findings, in order: each is there exactly when its part of the payload disagrees. */
  function Disagreements(p: Payload, audits: seq<string>, missing: seq<string>, root: Bytes): (r: seq<Finding>) {
    (if |audits| != p.auditCount || LastOr(audits) != p.auditHead
     then [AuditAnchorMismatch(p.auditHead, LastOr(audits))] else []) +
    (if missing != [] then [AnchoredObjectsMissing(missing)] else []) +
    (if root != p.root then [MerkleRootMismatch] else [])
  }

  ghost predicate Reports(h: Bytes -> Bytes, p: Payload, v: View, findings: seq<Finding>) {
    var audits := Take(Hashes(v.audit), p.auditCount);
    exists missing :: Listing(Lacking(p.objects, v.objects), missing) &&
      findings == Disagreements(p, audits, missing, Root(h, Leaves(audits, p.objects)))
  }

  method VerifyAnchor(h: Bytes -> Bytes, p: Payload, v: View) returns (r: Option<seq<Finding>>)
    ensures r.Some? <==> Readable(v.audit)
    ensures r.Some? ==> Reports(h, p, v, r.value)
    ensures r == Some([]) <==> Clean(h, p, v)
  {
    hide Root, Listing, LastOr, Take, Hashes, Readable, Lacking, Tagged;
    hide CodePointLe;
    var leaves := Tagged("object:", p.objects);
    var at := AuditAt(v.audit, Some(p.auditCount));
    if at == None { return None; }
    var (head, count, audits) := at.value;
    leaves := leaves + Tagged("audit:", audits);
    var findings: seq<Finding> := [];
    if count != p.auditCount || head != p.auditHead {
      findings := findings + [AuditAnchorMismatch(p.auditHead, head)];
    }
    var missing := MissingObjects(p.objects, v.objects);
    NothingMissing(p.objects, v.objects, missing);
    if missing != [] { findings := findings + [AnchoredObjectsMissing(missing)]; }
    var root := MerkleRoot(h, leaves);
    RootOfPermutation(h, leaves, Leaves(audits, p.objects));
    if root != p.root { findings := findings + [MerkleRootMismatch]; }
    assert findings == Disagreements(p, audits, missing, root);
    r := Some(findings);
  }

  /** sorted(set(anchored) - current) */
  method MissingObjects(objects: seq<string>, current: set<string>) returns (missing: seq<string>)
    ensures Listing(Lacking(objects, current), missing)
  {
    hide Lacking, CodePointLe;
    var found: seq<string> := [];
    LackingNothing(current);
    assert objects[..0] == [];
    for i := 0 to |objects|
      invariant multiset(found) == multiset(Lacking(objects[..i], current))
    {
      assert objects[..i + 1] == objects[..i] + [objects[i]];
      LackingStep(objects[..i], objects[i], current);
      assert objects[i] in found <==> objects[i] in multiset(found);
      if objects[i] !in current && objects[i] !in found { found := found + [objects[i]]; }
    }
    assert objects[..|objects|] == objects;
    CodePointOrderIsTotal();
    SortSorts(CodePointLe, found);
    missing := Sort(CodePointLe, found);
  }

  lemma LackingNothing(current: set<string>)
    ensures Lacking([], current) == {}
  {
  }

  lemma LackingStep(objects: seq<string>, x: string, current: set<string>)
    ensures Lacking(objects + [x], current) == Lacking(objects, current) + if x in current then {} else {x}
    ensures x in Lacking(objects, current) ==> Lacking(objects + [x], current) == Lacking(objects, current)
  {
  }

  lemma NothingMissing(objects: seq<string>, current: set<string>, missing: seq<string>)
    requires Listing(Lacking(objects, current), missing)
    ensures missing == [] <==> forall d :: d in objects ==> d in current
  {
    var lacking := Lacking(objects, current);
    assert forall d :: d in lacking <==> d in multiset(missing);
    if missing != [] {
      assert missing[0] in multiset(missing);
      assert missing[0] in lacking;
    } else {
      forall d | d in objects ensures d in current {
        assert d !in lacking;
      }
    }
  }

  // ---- Append-only growth ----

  lemma {:induction false} HashesOfPrefix(a: seq<AuditLine>, b: seq<AuditLine>)
    requires a <= b
    ensures Hashes(a) <= Hashes(b)
    decreases |b|
  {
    if a == b {
    } else {
      assert a <= b[..|b| - 1];
      HashesOfPrefix(a, b[..|b| - 1]);
    }
  }

  /** An anchor verifies cleanly against the repository it was made from and against anything
      that repository grows into. */
  lemma AnchorSurvivesGrowth(h: Bytes -> Bytes, before: View, list: seq<string>, after: View)
    requires Listing(before.objects, list)
    requires before.audit <= after.audit && before.objects <= after.objects && Readable(after.audit)
    ensures Clean(h, Create(h, before, list), after)
  {
    HashesOfPrefix(before.audit, after.audit);
    assert Take(Hashes(after.audit), |Hashes(before.audit)|) == Hashes(before.audit);
    forall d | d in list ensures d in after.objects {
      assert d in multiset(list);
    }
  }

  // ---- What a clean verification fixes ----

  lemma {:induction false} TaggedMultiset(tag: string, xs: seq<string>, x: string)
    ensures multiset(Tagged(tag, xs))[tag + x] == multiset(xs)[x]
  {
    if xs != [] {
      TaggedMultiset(tag, xs[1..], x);
      assert xs == [xs[0]] + xs[1..];
      if tag + xs[0] == tag + x { SplitAtLength(tag, tag, xs[0], x); }
    }
  }

  lemma SameAuditLeaves(a: seq<string>, b: seq<string>, objects: seq<string>)
    requires multiset(Leaves(a, objects)) == multiset(Leaves(b, objects))
    ensures multiset(a) == multiset(b)
  {
    var o := multiset(Tagged("object:", objects));
    var s, t := multiset(Tagged("audit:", a)), multiset(Tagged("audit:", b));
    assert s + o == t + o;
    forall x ensures multiset(a)[x] == multiset(b)[x] {
      assert (s + o)["audit:" + x] == (t + o)["audit:" + x];
      TaggedMultiset("audit:", a, x);
      TaggedMultiset("audit:", b, x);
    }
  }

  /** Two repositories that verify cleanly against one anchor hold the same anchored audit hashes,
      repetitions included, with the same one last, and both hold every anchored object; or
      SHA-256 failed on two messages that were hashed for their roots. */
  lemma CleanAnchorFixesAudit(h: Bytes -> Bytes, p: Payload, v: View, w: View)
    requires Digests32(h) && Clean(h, p, v) && Clean(h, p, w)
    ensures var a, b := Take(Hashes(v.audit), p.auditCount), Take(Hashes(w.audit), p.auditCount);
      LastOr(a) == LastOr(b) &&
      (multiset(a) == multiset(b) ||
        Merkle.Collide(h, Messages(h, Leaves(a, p.objects)), Messages(h, Leaves(b, p.objects))))
  {
    var a, b := Take(Hashes(v.audit), p.auditCount), Take(Hashes(w.audit), p.auditCount);
    RootFixesLeaves(h, Leaves(a, p.objects), Leaves(b, p.objects));
    if multiset(Leaves(a, p.objects)) == multiset(Leaves(b, p.objects)) {
      SameAuditLeaves(a, b, p.objects);
    }
  }

  // ---- Anchors over audit files that check ----

  /** An audit line as audit_at reads it. */
  function Seen<N>(l: Line<N>): (r: AuditLine) {
    if l.Blank? then BlankLine
    else if l.Parsed? && l.value.Obj? && Get(l.value.members, HASH).Str? then HashLine(Get(l.value.members, HASH).s)
    else BadLine
  }

  function SeenAll<N>(lines: seq<Line<N>>): (r: seq<AuditLine>)
    ensures |r| == |lines|
  {
    if lines == [] then [] else SeenAll(lines[..|lines| - 1]) + [Seen(lines[|lines| - 1])]
  }

  lemma SeenAppend<N>(lines: seq<Line<N>>)
    requires lines != []
    ensures var n := |lines| - 1;
      Hashes(SeenAll(lines)) ==
      Hashes(SeenAll(lines[..n])) + if Seen(lines[n]).HashLine? then [Seen(lines[n]).hash] else []
  {
    hide Seen;
    assert SeenAll(lines)[..|lines| - 1] == SeenAll(lines[..|lines| - 1]);
  }

  /** In a file that checks, the lines with a hash are the entries. */
  lemma SeenIffEntry<N>(c: AuditLog.Primitives<N>, lines: seq<Line<N>>)
    requires lines != [] && AuditLog.Check(c, lines).Chained?
    ensures var n := |lines| - 1;
      AuditLog.Check(c, lines[..n]).Chained? &&
      Seen(lines[n]) == if AuditLog.IsEntry(lines[n]) then HashLine(Get(lines[n].value.members, HASH).s) else BlankLine
  {
    hide AuditLog.Message, Get, Without;
  }

  lemma {:induction false} SeenHashesAreLinkHashes<N(!new)>(c: AuditLog.Primitives<N>, lines: seq<Line<N>>)
    requires AuditLog.Check(c, lines).Chained?
    ensures |Hashes(SeenAll(lines))| == |AuditLog.Links(c, lines)|
    ensures forall i :: 0 <= i < |AuditLog.Links(c, lines)| ==>
      Hashes(SeenAll(lines))[i] == AuditLog.Links(c, lines)[i].hash
  {
    hide Seen, AuditLog.IsEntry, Get, Without, AuditLog.Check, MessageOf;
    if lines != [] {
      SeenIffEntry(c, lines);
      SeenAppend(lines);
      SeenHashesAreLinkHashes(c, lines[..|lines| - 1]);
    }
  }

  /** An audit file that checks never makes audit_at raise. */
  lemma {:induction false} CheckedIsReadable<N>(c: AuditLog.Primitives<N>, lines: seq<Line<N>>)
    requires AuditLog.Check(c, lines).Chained?
    ensures Readable(SeenAll(lines))
  {
    hide Seen, AuditLog.IsEntry, Get, AuditLog.Check;
    if lines != [] {
      SeenIffEntry(c, lines);
      CheckedIsReadable(c, lines[..|lines| - 1]);
    }
  }

  lemma AnchoredHead<N(!new)>(
      h: Bytes -> Bytes, c: AuditLog.Primitives<N>, lines: seq<Line<N>>, p: Payload, objects: set<string>)
    requires LinesValid(lines) && AuditLog.Check(c, lines).Chained?
    requires Clean(h, p, View(SeenAll(lines), objects))
    ensures 0 <= p.auditCount <= |AuditLog.Links(c, lines)|
    ensures Head(AuditLog.Links(c, lines)[..p.auditCount]) == p.auditHead
  {
    hide Root, Leaves, Readable, SeenAll, Hashes, AuditLog.Links, AuditLog.Check;
    SeenHashesAreLinkHashes(c, lines);
  }

  /** Two repositories whose audit files check and which verify cleanly against one anchor record
      the same anchored events in the same order, or two of those events collide. */
  lemma CleanAnchorFixesEvents<N(!new)>(
      h: Bytes -> Bytes, c: AuditLog.Primitives<N>, p: Payload,
      a: seq<Line<N>>, objects: set<string>, b: seq<Line<N>>, others: set<string>)
    requires NumbersLawful(c.numText) && LinesValid(a) && LinesValid(b)
    requires AuditLog.Check(c, a).Chained? && AuditLog.Check(c, b).Chained?
    requires Clean(h, p, View(SeenAll(a), objects)) && Clean(h, p, View(SeenAll(b), others))
    ensures 0 <= p.auditCount <= |AuditLog.Links(c, a)| && p.auditCount <= |AuditLog.Links(c, b)|
    ensures var x, y := AuditLog.Links(c, a)[..p.auditCount], AuditLog.Links(c, b)[..p.auditCount];
      x == y || HashChain.Collide(c.sha256, x, y)
  {
    hide *;
    AnchoredHead(h, c, a, p, objects);
    AnchoredHead(h, c, b, p, others);
    AuditLog.CheckedIsLinked(c, a);
    AuditLog.CheckedIsLinked(c, b);
    LinkedPrefix(c.sha256, AuditLog.Links(c, a), p.auditCount);
    LinkedPrefix(c.sha256, AuditLog.Links(c, b), p.auditCount);
    StylesAreLawful(c.numText);
    EventsFaithful(AsciiStyle(c.numText), AuditLog.Links(c, a), AuditLog.Links(c, b));
    FaithfulPrefixes(AuditLog.Links(c, a), AuditLog.Links(c, b), p.auditCount);
    HeadFixesLog(c.sha256, AuditLog.Links(c, a)[..p.auditCount], AuditLog.Links(c, b)[..p.auditCount]);
  }
}

/** The audit file of the repository: how it is written and how it is verified. */
module AuditLog {
  import opened Wrappers
  import opened Encodings
  import opened CanonicalJson
  import opened Dictionaries
  import opened HashChain
  import opened EventLinks
  import opened Sorting
  import opened StringEscapes
  import opened PythonJson

  /** SHA-256 as a hex digest, and Python's number writer. */
  datatype Primitives<!N> = Primitives(numText: N -> string, fromNat: nat -> N, sha256: Bytes -> string)

  datatype Break = PrevMismatch | HashMismatch | Raised

  /** The count is that of the lines that were linked before the end or the break. */
  datatype Outcome = Chained(count: nat, head: string) | Broken(line: nat, why: Break, count: nat)

  function Message<N>(c: Primitives<N>, d: Dict<N>): (b: Bytes) { MessageOf(AsciiStyle(c.numText), d) }

  /** What is hashed is compact JSON text that escapes whatever is not ASCII. */
  lemma MessageOfOne<N>(c: Primitives<N>, k: string, s: string)
    ensures Message(c, [Member(k, Str(s))]) ==
      Utf8("{\"" + EscapeAll(EscapeNonAscii, k) + "\":\"" + EscapeAll(EscapeNonAscii, s) + "\"}")
    ensures forall i :: 0 <= i < |EscapeAll(EscapeNonAscii, s)| ==> 32 <= EscapeAll(EscapeNonAscii, s)[i] as int < 127
    ensures Unescape(EscapeAll(EscapeNonAscii, s)) == Some(Utf16(s))
  {
    hide Utf8, Sort, Unescape, Utf16, EscapeNonAscii, EscapeAll;
    var x, y := EscapeAll(EscapeNonAscii, k), EscapeAll(EscapeNonAscii, s);
    OneMember(AsciiStyle(c.numText), k, Str(s));
    StringsMean(s);
    EscapedIsAscii(s);
    assert "{" + (("\"" + x + "\"") + ":" + ("\"" + y + "\"")) + "}" == "{\"" + x + "\":\"" + y + "\"}";
  }

  lemma {:induction false} EscapedIsAscii(s: string)
    ensures forall i :: 0 <= i < |EscapeAll(EscapeNonAscii, s)| ==> 32 <= EscapeAll(EscapeNonAscii, s)[i] as int < 127
  {
    hide EscapeNonAscii;
    if s != "" {
      ShortForms(s[0]);
      EscapedIsAscii(s[1..]);
    }
  }

  // ---- Reading ----

  function CheckLine<N(==)>(c: Primitives<N>, count: nat, prev: string, line: nat, l: Line<N>): (o: Outcome) {
    match l
    case Blank => Chained(count, prev)
    case Unparsable => Broken(line, Raised, count)
    case Parsed(v) =>
      if !v.Obj? || HASH !in Names(v.members) then Broken(line, Raised, count)
      else
        var d := v.members;
        var expected := c.sha256(Message(c, Without(d, HASH)));
        if Get(Without(d, HASH), PREV) != Str(prev) then Broken(line, PrevMismatch, count)
        else if Get(d, HASH) != Str(expected) then Broken(line, HashMismatch, count)
        else Chained(count + 1, expected)
  }

  function Check<N(==)>(c: Primitives<N>, lines: seq<Line<N>>): (o: Outcome) {
    if lines == [] then Chained(0, GENESIS)
    else
      var n := |lines| - 1;
      match Check(c, lines[..n])
      case Broken(line, why, count) => Broken(line, why, count)
      case Chained(count, prev) => CheckLine(c, count, prev, n + 1, lines[n])
  }

  method CheckAudit<N(==)>(c: Primitives<N>, lines: seq<Line<N>>) returns (o: Outcome)
    ensures o == Check(c, lines)
  {
    var prev, count := GENESIS, 0;
    for i := 0 to |lines|
      invariant Check(c, lines[..i]) == Chained(count, prev)
    {
      assert lines[..i + 1][..i] == lines[..i];
      var step := CheckLine(c, count, prev, i + 1, lines[i]);
      if step.Broken? {
        BreakIsFinal(c, lines, i + 1);
        return step;
      }
      count, prev := step.count, step.head;
    }
    assert lines[..|lines|] == lines;
    o := Chained(count, prev);
  }

  lemma {:induction false} BreakIsFinal<N>(c: Primitives<N>, lines: seq<Line<N>>, i: nat)
    requires i <= |lines| && Check(c, lines[..i]).Broken?
    ensures Check(c, lines) == Check(c, lines[..i])
    decreases |lines|
  {
    if i == |lines| {
      assert lines[..i] == lines;
    } else {
      var n := |lines| - 1;
      assert lines[..n][..i] == lines[..i];
      BreakIsFinal(c, lines[..n], i);
    }
  }

  // ---- Appending ----

  /** The previous hash _audit finds by scanning the file; None where it raises. */
  function LastHash<N>(lines: seq<Line<N>>): (r: Option<Json<N>>) {
    if lines == [] then Some(Str(GENESIS))
    else
      var n := |lines| - 1;
      match lines[n]
      case Blank => LastHash(lines[..n])
      case Unparsable => None
      case Parsed(v) =>
        if LastHash(lines[..n]) == None || !v.Obj? || HASH !in Names(v.members) then None
        else Some(Get(v.members, HASH))
  }

  function Core<N>(time: string, actor: string, action: string, details: Dict<N>, prev: Json<N>): (d: Dict<N>) {
    [Member("schema", Str("ai-dfir/repository-audit/v1.1")), Member("timestamp_utc", Str(time)),
     Member("actor", Str(actor)), Member("action", Str(action)), Member("details", Obj(details)), Member(PREV, prev)]
  }

  function Entry<N>(c: Primitives<N>, core: Dict<N>): (d: Dict<N>) {
    core + [Member(HASH, Str(c.sha256(Message(c, core))))]
  }

  /** What an entry says: who did what, when and to what, and the hash of the entry before it. */
  ghost predicate Says<N>(d: Dict<N>, time: string, actor: string, action: string, details: Dict<N>, prev: Json<N>) {
    && Get(d, "schema") == Str("ai-dfir/repository-audit/v1.1") && Get(d, "timestamp_utc") == Str(time)
    && Get(d, "actor") == Str(actor) && Get(d, "action") == Str(action) && Get(d, "details") == Obj(details)
    && Get(d, "prev_event_hash") == prev
  }

  lemma EntrySays<N>(c: Primitives<N>, time: string, actor: string, action: string, details: Dict<N>, prev: Json<N>)
    ensures Says(Entry(c, Core(time, actor, action, details, prev)), time, actor, action, details, prev)
  {
    hide Get, Message;
    var d := Entry(c, Core(time, actor, action, details, prev));
    GetAt(d, 0);
    GetAt(d, 1);
    GetAt(d, 2);
    GetAt(d, 3);
    GetAt(d, 4);
    GetAt(d, 5);
  }

  /** The file after _audit; None where it raises. */
  function Audited<N>(
      c: Primitives<N>, lines: seq<Line<N>>, time: string, actor: string, action: string, details: Dict<N>)
    : (r: Option<seq<Line<N>>>)
  {
    match LastHash(lines)
    case None => None
    case Some(prev) => Some(lines + [Parsed(Obj(Entry(c, Core(time, actor, action, details, prev))))])
  }

  method FindLastHash<N>(lines: seq<Line<N>>) returns (r: Option<Json<N>>)
    ensures r == LastHash(lines)
  {
    hide Names, Get;
    var prev := Str(GENESIS);
    for i := 0 to |lines|
      invariant LastHash(lines[..i]) == Some(prev)
    {
      assert lines[..i + 1][..i] == lines[..i];
      match lines[i] {
        case Blank =>
        case Unparsable =>
          NoLastHash(lines, i + 1);
          return None;
        case Parsed(v) =>
          if !v.Obj? || HASH !in Names(v.members) {
            NoLastHash(lines, i + 1);
            return None;
          }
          prev := Get(v.members, HASH);
      }
    }
    assert lines[..|lines|] == lines;
    r := Some(prev);
  }

  lemma {:induction false} NoLastHash<N>(lines: seq<Line<N>>, i: nat)
    requires i <= |lines| && LastHash(lines[..i]) == None
    ensures LastHash(lines) == None
    decreases |lines|
  {
    if i == |lines| {
      assert lines[..i] == lines;
    } else {
      var n := |lines| - 1;
      assert lines[..n][..i] == lines[..i];
      NoLastHash(lines[..n], i);
    }
  }

  /** On a file that checks, _audit continues from the head. */
  lemma {:induction false} HeadIsLastHash<N>(c: Primitives<N>, lines: seq<Line<N>>)
    requires Check(c, lines).Chained?
    ensures LastHash(lines) == Some(Str(Check(c, lines).head))
  {
    if lines != [] { HeadIsLastHash(c, lines[..|lines| - 1]); }
  }

  lemma EntryParts<N>(c: Primitives<N>, core: Dict<N>)
    requires HASH !in Names(core)
    ensures HASH in Names(Entry(c, core)) && Without(Entry(c, core), HASH) == core
    ensures Get(Entry(c, core), HASH) == Str(c.sha256(Message(c, core)))
  {
    LastMember(core, HASH, Str(c.sha256(Message(c, core))));
  }

  lemma {:induction false} LastMember<N>(d: Dict<N>, k: string, v: Json<N>)
    requires k !in Names(d)
    ensures k in Names(d + [Member(k, v)]) && Get(d + [Member(k, v)], k) == v
    ensures Without(d + [Member(k, v)], k) == d
  {
    hide Names, Lookup, Get;
    var e := d + [Member(k, v)];
    NamesCons(e);
    GetCons(e, k);
    if d == [] {
      assert e[1..] == [] && Without(e[1..], k) == [];
    } else {
      NamesCons(d);
      assert e[1..] == d[1..] + [Member(k, v)] && e[0] == d[0];
      LastMember(d[1..], k, v);
      assert d == [d[0]] + d[1..];
    }
  }

  lemma NamesCons<N>(d: Dict<N>)
    requires d != []
    ensures forall n :: n in Names(d) <==> n == d[0].key || n in Names(d[1..])
  {
    assert Names(d) == [d[0].key] + Names(d[1..]);
  }

  /** Every audit entry extends a file that checks to one that checks. */
  lemma AuditKeepsChain<N>(
      c: Primitives<N>, lines: seq<Line<N>>, time: string, actor: string, action: string, details: Dict<N>)
    requires Check(c, lines).Chained?
    ensures Audited(c, lines, time, actor, action, details).Some?
    ensures Check(c, Audited(c, lines, time, actor, action, details).value).Chained?
    ensures Check(c, Audited(c, lines, time, actor, action, details).value).count == Check(c, lines).count + 1
  {
    hide Core, Check, CheckLine, LastHash, Entry;
    HeadIsLastHash(c, lines);
    var core := Core(time, actor, action, details, Str(Check(c, lines).head));
    CoreNames(time, actor, action, details, Str(Check(c, lines).head));
    CheckAppended(c, lines, Parsed(Obj(Entry(c, core))));
    CheckEntry(c, Check(c, lines).count, Check(c, lines).head, |lines| + 1, core);
  }

  lemma CheckAppended<N>(c: Primitives<N>, lines: seq<Line<N>>, l: Line<N>)
    requires Check(c, lines).Chained?
    ensures Check(c, lines + [l]) == CheckLine(c, Check(c, lines).count, Check(c, lines).head, |lines| + 1, l)
  {
    hide CheckLine;
    assert (lines + [l])[..|lines|] == lines;
  }

  lemma CheckEntry<N>(c: Primitives<N>, count: nat, prev: string, line: nat, core: Dict<N>)
    requires HASH !in Names(core) && Get(core, PREV) == Str(prev)
    ensures CheckLine(c, count, prev, line, Parsed(Obj(Entry(c, core)))) ==
      Chained(count + 1, c.sha256(Message(c, core)))
  {
    hide Entry, Message, Names, Get, Without;
    EntryParts(c, core);
  }

  lemma CoreNames<N>(time: string, actor: string, action: string, details: Dict<N>, prev: Json<N>)
    ensures HASH !in Names(Core(time, actor, action, details, prev))
    ensures Get(Core(time, actor, action, details, prev), PREV) == prev
  {
    var d := Core(time, actor, action, details, prev);
    hide Names;
    assert forall i :: 0 <= i < |d| ==> Names(d)[i] == d[i].key && d[i].key != HASH && (d[i].key == PREV ==> i == 5);
    assert Names(d)[5] == PREV;
    var i :| 0 <= i < |d| && d[i].key == PREV && d[i].value == Lookup(d, PREV);
  }

  // ---- The head fixes the file ----

  ghost predicate IsEntry<N>(l: Line<N>) {
    l.Parsed? && l.value.Obj? && Get(l.value.members, HASH).Str? && Get(Without(l.value.members, HASH), PREV).Str?
  }

  /** The entries of the file, in order, as a hash chain. */
  ghost function Links<N>(c: Primitives<N>, lines: seq<Line<N>>): (r: seq<EventLink<N>>) {
    if lines == [] then []
    else
      var n := |lines| - 1;
      if !IsEntry(lines[n]) then Links(c, lines[..n])
      else
        var d := lines[n].value.members;
        Links(c, lines[..n]) + [LinkOf(AsciiStyle(c.numText), Without(d, HASH), Get(d, HASH).s)]
  }

  lemma {:induction false} CheckedIsLinked<N(!new)>(c: Primitives<N>, lines: seq<Line<N>>)
    requires LinesValid(lines) && Check(c, lines).Chained?
    ensures Linked(c.sha256, Links(c, lines)) && FromEvents(AsciiStyle(c.numText), Links(c, lines))
    ensures Check(c, lines) == Chained(|Links(c, lines)|, Head(Links(c, lines)))
  {
    hide MessageOf, Linked, FromEvents, WellFormed;
    var st := AsciiStyle(c.numText);
    if lines == [] {
      assert Linked(c.sha256, Links(c, lines)) && FromEvents(st, Links(c, lines)) by { EmptyChain(c.sha256, st); }
    } else {
      var n := |lines| - 1;
      CheckedIsLinked(c, lines[..n]);
      if lines[n].Parsed? {
        var d := lines[n].value.members;
        WithoutGet(d, HASH);
        LinkedAppend(c.sha256, Links(c, lines[..n]), LinkOf(st, Without(d, HASH), Get(d, HASH).s));
        AppendFromEvent(st, Links(c, lines[..n]), Without(d, HASH), Get(d, HASH).s);
      }
    }
  }

  /** Two audit files that check and end in the same hash record the same events in the same
      order, or two of their entries collide, or, when their lengths differ, an entry hashes to
      sixty-four zeros. */
  lemma HeadFixesAudit<N(!new)>(c: Primitives<N>, a: seq<Line<N>>, b: seq<Line<N>>)
    requires NumbersLawful(c.numText) && LinesValid(a) && LinesValid(b)
    requires Check(c, a).Chained? && Check(c, b).Chained? && Check(c, a).head == Check(c, b).head
    ensures Links(c, a) == Links(c, b) || Collide(c.sha256, Links(c, a), Links(c, b)) ||
      (Check(c, a).count != Check(c, b).count &&
        (HitsGenesis(c.sha256, Links(c, a)) || HitsGenesis(c.sha256, Links(c, b))))
  {
    hide *;
    CheckedIsLinked(c, a);
    CheckedIsLinked(c, b);
    StylesAreLawful(c.numText);
    EventsFaithful(AsciiStyle(c.numText), Links(c, a), Links(c, b));
    HeadFixesLog(c.sha256, Links(c, a), Links(c, b));
  }
}

/** Reading canonical JSON back: a parser that accepts exactly the texts the printer writes. */
module CanonicalReader {
  import opened Wrappers
  import opened Sorting
  import opened CanonicalJson

  /** A style with the inverses of its two codes: the character at the front of an escaped string
      and the length of its escape, and the number that a word stands for. */
  datatype Reader<!N> = Reader(
    style: Style<N>, readChar: string -> Option<(char, nat)>, readNumber: string -> Option<N>)

  ghost predicate Inverts<N(!new)>(r: Reader<N>) {
    && Lawful(r.style)
    && (forall c, x: string :: r.readChar(r.style.escape(c) + x) == Some((c, |r.style.escape(c)|)))
    && (forall n :: r.readNumber(r.style.numText(n)) == Some(n))
  }

  /** Neither of them takes a text that the style does not write. */
  ghost predicate Sound<N(!new)>(r: Reader<N>) {
    && (forall t, c, n :: r.readChar(t) == Some((c, n)) ==> n <= |t| && t[..n] == r.style.escape(c))
    && (forall t, n :: r.readNumber(t) == Some(n) ==> r.style.numText(n) == t)
  }

  // ---- The parser ----

  /** A string after its opening quote, and what follows the closing one. */
  function ReadString<N>(r: Reader<N>, t: string): (o: Option<(string, string)>)
    ensures o.Some? ==> |o.value.1| < |t|
    decreases |t|
  {
    if t == "" then None
    else if t[0] == '"' then Some(("", t[1..]))
    else
      match r.readChar(t)
      case None => None
      case Some((c, n)) =>
        if n == 0 || n > |t| then None
        else
          match ReadString(r, t[n..])
          case None => None
          case Some((s, rest)) => Some(([c] + s, rest))
  }

  function WordEnd(t: string): (n: nat)
    ensures n <= |t|
  {
    if t == "" || Delimiter(t[0]) then 0 else 1 + WordEnd(t[1..])
  }

  function ReadWord<N>(r: Reader<N>, word: string): (o: Option<Json<N>>) {
    if word == "null" then Some(Null)
    else if word == "true" then Some(Bool(true))
    else if word == "false" then Some(Bool(false))
    else
      match r.readNumber(word)
      case None => None
      case Some(n) => Some(Num(n))
  }

  /** A value at the front of the text, and what follows it. */
  function ReadValue<N>(r: Reader<N>, t: string): (o: Option<(Json<N>, string)>)
    ensures o.Some? ==> |o.value.1| < |t|
    decreases |t|, 0
  {
    if t == "" || Delimiter(t[0]) then None
    else if t[0] == '"' then
      match ReadString(r, t[1..])
      case None => None
      case Some((s, rest)) => Some((Str(s), rest))
    else if t[0] == '[' then
      if |t| > 1 && t[1] == ']' then Some((Arr([]), t[2..]))
      else
        match ReadItems(r, t[1..])
        case None => None
        case Some((xs, rest)) => Some((Arr(xs), rest))
    else if t[0] == '{' then
      if |t| > 1 && t[1] == '}' then Some((Obj([]), t[2..]))
      else
        match ReadMembers(r, t[1..])
        case None => None
        case Some((ms, rest)) => Some((Obj(ms), rest))
    else
      match ReadWord(r, t[..WordEnd(t)])
      case None => None
      case Some(v) => Some((v, t[WordEnd(t)..]))
  }

  /** One or more items and the closing bracket. */
  function ReadItems<N>(r: Reader<N>, t: string): (o: Option<(seq<Json<N>>, string)>)
    ensures o.Some? ==> |o.value.1| < |t|
    decreases |t|, 1
  {
    match ReadValue(r, t)
    case None => None
    case Some((v, rest)) =>
      if rest == "" then None
      else if rest[0] == ']' then Some(([v], rest[1..]))
      else if rest[0] != ',' then None
      else
        match ReadItems(r, rest[1..])
        case None => None
        case Some((xs, rest)) => Some(([v] + xs, rest))
  }

  /** One or more members, no name twice, and the closing brace. */
  function ReadMembers<N>(r: Reader<N>, t: string): (o: Option<(seq<Member<N>>, string)>)
    ensures o.Some? ==> |o.value.1| < |t|
    decreases |t|, 1
  {
    match ReadMember(r, t)
    case None => None
    case Some((m, rest)) =>
      if rest == "" then None
      else if rest[0] == '}' then Some(([m], rest[1..]))
      else if rest[0] != ',' then None
      else
        match ReadMembers(r, rest[1..])
        case None => None
        case Some((ms, rest)) => if m.key in Names(ms) then None else Some(([m] + ms, rest))
  }

  function ReadMember<N>(r: Reader<N>, t: string): (o: Option<(Member<N>, string)>)
    ensures o.Some? ==> |o.value.1| < |t|
    decreases |t|, 0
  {
    if t == "" || t[0] != '"' then None
    else
      match ReadString(r, t[1..])
      case None => None
      case Some((k, rest)) =>
        if rest == "" || rest[0] != ':' then None
        else
          match ReadValue(r, rest[1..])
          case None => None
          case Some((v, rest)) => Some((Member(k, v), rest))
  }

  /** Members stand in the order of their names. */
  predicate Ordered<N>(st: Style<N>, v: Json<N>)
    decreases v
  {
    match v
    case Arr(xs) => forall i :: 0 <= i < |xs| ==> Ordered(st, xs[i])
    case Obj(ms) => InOrder(st.keyLe, Names(ms)) && forall i :: 0 <= i < |ms| ==> Ordered(st, ms[i].value)
    case _ => true
  }

  predicate InOrder(le: (string, string) -> bool, ks: seq<string>) {
    forall i :: 0 < i < |ks| ==> le(ks[i - 1], ks[i])
  }

  /** A whole canonical text: nothing is left over and the members are in order. */
  function ReadCanonical<N>(r: Reader<N>, t: string): (v: Option<Json<N>>) {
    match ReadValue(r, t)
    case Some((v, rest)) => if rest == "" && Ordered(r.style, v) then Some(v) else None
    case None => None
  }

  // ---- What is read: the value with its members in the printed order ----

  function Arranged<N>(st: Style<N>, v: Json<N>): (w: Json<N>)
    decreases v
  {
    match v
    case Arr(xs) => Arr(ArrangedItems(st, xs))
    case Obj(ms) =>
      assert forall k :: k in Sort(st.keyLe, Names(ms)) ==> k in multiset(Names(ms));
      Obj(ArrangedMembers(st, ms, Sort(st.keyLe, Names(ms))))
    case _ => v
  }

  function ArrangedItems<N>(st: Style<N>, xs: seq<Json<N>>): (ys: seq<Json<N>>)
    ensures |ys| == |xs|
    decreases xs
  {
    if xs == [] then [] else [Arranged(st, xs[0])] + ArrangedItems(st, xs[1..])
  }

  function ArrangedMembers<N>(st: Style<N>, ms: seq<Member<N>>, ks: seq<string>): (ns: seq<Member<N>>)
    requires forall k :: k in ks ==> k in Names(ms)
    ensures |ns| == |ks|
    decreases ms, |ks|
  {
    if ks == [] then []
    else [Member(ks[0], Arranged(st, Lookup(ms, ks[0])))] + ArrangedMembers(st, ms, ks[1..])
  }

  lemma {:induction false} ArrangedNames<N>(st: Style<N>, ms: seq<Member<N>>, ks: seq<string>)
    requires forall k :: k in ks ==> k in Names(ms)
    ensures Names(ArrangedMembers(st, ms, ks)) == ks
  {
    hide Arranged, Lookup;
    if ks != [] {
      ArrangedNames(st, ms, ks[1..]);
      var ns := ArrangedMembers(st, ms, ks);
      assert ns[1..] == ArrangedMembers(st, ms, ks[1..]);
      assert ks == [ks[0]] + ks[1..];
    }
  }

  // ---- The parser inverts the printer ----

  lemma {:induction false} ReadStringInverts<N(!new)>(r: Reader<N>, s: string, x: string)
    requires Inverts(r)
    ensures ReadString(r, EscapeAll(r.style.escape, s) + ("\"" + x)) == Some((s, x))
  {
    var esc := r.style.escape;
    var t := EscapeAll(esc, s) + ("\"" + x);
    EscapeAllHead(esc, s, x);
    if s == "" {
      assert t == "\"" + x && t[1..] == x;
    } else {
      var p := EscapeAll(esc, s[1..]) + ("\"" + x);
      Assoc(esc(s[0]), EscapeAll(esc, s[1..]), "\"" + x);
      assert t == esc(s[0]) + p;
      assert r.readChar(t) == Some((s[0], |esc(s[0])|));
      assert t[|esc(s[0])|..] == p;
      ReadStringInverts(r, s[1..], x);
      assert s == [s[0]] + s[1..];
    }
  }

  lemma {:induction false} WordEndIs(s: string, x: string)
    requires (forall i :: 0 <= i < |s| ==> !Delimiter(s[i])) && Follow(x)
    ensures WordEnd(s + x) == |s|
  {
    if s == "" {
      assert s + x == x;
    } else {
      assert (s + x)[1..] == s[1..] + x;
      WordEndIs(s[1..], x);
    }
  }

  lemma ReadWordInverts<N(!new)>(r: Reader<N>, v: Json<N>, x: string)
    requires Inverts(r) && Follow(x) && (v.Null? || v.Bool? || v.Num?)
    ensures ReadValue(r, Canon(r.style, v) + x) == Some((v, x))
  {
    var s := Canon(r.style, v);
    FirstChar(r.style, v);
    if v.Num? {
      assert NumberText(s);
      assert s[0] != 'n' && s[0] != 't' && s[0] != 'f';
    }
    WordEndIs(s, x);
    assert (s + x)[..|s|] == s && (s + x)[|s|..] == x && (s + x)[0] == s[0];
  }

  lemma {:induction false} ReadInverts<N(!new)>(r: Reader<N>, v: Json<N>, x: string)
    requires Inverts(r) && WellFormed(v) && Follow(x)
    ensures ReadValue(r, Canon(r.style, v) + x) == Some((Arranged(r.style, v), x))
    decreases v, 1
  {
    match v {
      case Str(s) => ReadQuoted(r, s, x);
      case Arr(xs) => ReadArray(r, xs, x);
      case Obj(ms) => ReadObject(r, ms, x);
      case _ => ReadWordInverts(r, v, x);
    }
  }

  lemma ReadQuoted<N(!new)>(r: Reader<N>, s: string, x: string)
    requires Inverts(r)
    ensures ReadValue(r, Canon(r.style, Str(s)) + x) == Some((Str(s), x))
  {
    hide ReadString, Inverts, ReadItems, ReadMembers, ReadWord, WordEnd, EscapeAll;
    var t := Canon(r.style, Str(s)) + x;
    assert t == "\"" + (EscapeAll(r.style.escape, s) + ("\"" + x));
    assert t[1..] == EscapeAll(r.style.escape, s) + ("\"" + x);
    ReadStringInverts(r, s, x);
  }

  lemma {:induction false} ReadArray<N(!new)>(r: Reader<N>, xs: seq<Json<N>>, x: string)
    requires Inverts(r) && WellFormed(Arr(xs))
    ensures ReadValue(r, Canon(r.style, Arr(xs)) + x) == Some((Arranged(r.style, Arr(xs)), x))
    decreases xs, 1
  {
    hide Inverts, ReadItems, ReadMembers, ReadString, ReadWord, WordEnd;
    var t := Canon(r.style, Arr(xs)) + x;
    var u := ItemsText(r.style, xs) + ("]" + x);
    assert t == "[" + u && t[1..] == u;
    if xs == [] {
      assert u == "]" + x && t[2..] == x;
    } else {
      ItemsShape(r.style, xs, x);
      FirstCharOf(r, xs[0]);
      ReadItemsInverts(r, xs, x);
    }
  }

  lemma FirstCharOf<N(!new)>(r: Reader<N>, v: Json<N>)
    requires Inverts(r)
    ensures Canon(r.style, v) != "" && !Delimiter(Canon(r.style, v)[0])
  {
    FirstChar(r.style, v);
  }

  lemma ReadItemsStep<N>(r: Reader<N>, t: string, v: Json<N>, rest: string)
    requires ReadValue(r, t) == Some((v, rest)) && rest != ""
    ensures rest[0] == ']' ==> ReadItems(r, t) == Some(([v], rest[1..]))
    ensures rest[0] == ',' && ReadItems(r, rest[1..]).Some? ==>
      ReadItems(r, t) == Some(([v] + ReadItems(r, rest[1..]).value.0, ReadItems(r, rest[1..]).value.1))
  {
    hide ReadValue;
  }

  lemma {:induction false} ReadItemsInverts<N(!new)>(r: Reader<N>, xs: seq<Json<N>>, x: string)
    requires Inverts(r) && WellFormed(Arr(xs)) && xs != []
    ensures ReadItems(r, ItemsText(r.style, xs) + ("]" + x)) == Some((ArrangedItems(r.style, xs), x))
    decreases xs, 0
  {
    hide Inverts, ReadValue, ReadItems, ItemsText, Canon, Arranged;
    ItemsShape(r.style, xs, x);
    var t, after := ItemsText(r.style, xs) + ("]" + x), AfterItem(r.style, xs, x);
    ReadInverts(r, xs[0], after);
    ReadItemsStep(r, t, Arranged(r.style, xs[0]), after);
    if |xs| == 1 {
      assert after[1..] == x;
      assert ArrangedItems(r.style, xs) == [Arranged(r.style, xs[0])];
    } else {
      assert WellFormed(Arr(xs[1..]));
      ReadItemsInverts(r, xs[1..], x);
      assert after[1..] == ItemsText(r.style, xs[1..]) + ("]" + x);
    }
  }

  lemma ObjectText<N>(st: Style<N>, ms: seq<Member<N>>, ks: seq<string>, x: string)
    requires ks == Sort(st.keyLe, Names(ms)) && forall k :: k in ks ==> k in Names(ms)
    ensures Canon(st, Obj(ms)) + x == "{" + (MembersText(st, ms, ks) + ("}" + x))
  {
    hide MembersText, Sort;
    var t := MembersText(st, ms, ks);
    assert Canon(st, Obj(ms)) == "{" + t + "}";
  }

  lemma ReadObjectStep<N>(r: Reader<N>, t: string)
    requires t != "" && t[0] == '{' && |t| > 1
    ensures t[1] == '}' ==> ReadValue(r, t) == Some((Obj([]), t[2..]))
    ensures t[1] != '}' && ReadMembers(r, t[1..]).Some? ==>
      ReadValue(r, t) == Some((Obj(ReadMembers(r, t[1..]).value.0), ReadMembers(r, t[1..]).value.1))
  {
    hide ReadMembers;
  }

  lemma {:induction false} ReadObject<N(!new)>(r: Reader<N>, ms: seq<Member<N>>, x: string)
    requires Inverts(r) && WellFormed(Obj(ms))
    ensures ReadValue(r, Canon(r.style, Obj(ms)) + x) == Some((Arranged(r.style, Obj(ms)), x))
    decreases ms, 1
  {
    hide Inverts, ReadMembers, ReadValue, Canon, MembersText, Sort;
    var ks := Sort(r.style.keyLe, Names(ms));
    SortedNamesOf(r.style, ms);
    ObjectText(r.style, ms, ks, x);
    var u := MembersText(r.style, ms, ks) + ("}" + x);
    var t := "{" + u;
    assert t[1..] == u && t[0] == '{' && |u| > 0;
    ReadObjectStep(r, t);
    if ks == [] {
      NoMembersText(r.style, ms);
      assert u == "}" + x && t[2..] == x && ArrangedMembers(r.style, ms, ks) == [];
    } else {
      MembersHeadIsQuote(r, ms, ks, x);
      ReadMembersInverts(r, ms, ks, x);
    }
  }

  lemma MembersHeadIsQuote<N(!new)>(r: Reader<N>, ms: seq<Member<N>>, ks: seq<string>, x: string)
    requires (forall k :: k in ks ==> k in Names(ms)) && ks != []
    ensures (MembersText(r.style, ms, ks) + ("}" + x))[0] == '"'
  {
  }

  lemma ReadMembersStep<N>(r: Reader<N>, t: string, m: Member<N>, rest: string)
    requires ReadMember(r, t) == Some((m, rest)) && rest != ""
    ensures rest[0] == '}' ==> ReadMembers(r, t) == Some(([m], rest[1..]))
    ensures rest[0] == ',' && ReadMembers(r, rest[1..]).Some? && m.key !in Names(ReadMembers(r, rest[1..]).value.0) ==>
      ReadMembers(r, t) == Some(([m] + ReadMembers(r, rest[1..]).value.0, ReadMembers(r, rest[1..]).value.1))
  {
    hide ReadMember, Names;
  }

  lemma {:induction false} ReadMembersInverts<N(!new)>(r: Reader<N>, ms: seq<Member<N>>, ks: seq<string>, x: string)
    requires Inverts(r) && WellFormed(Obj(ms)) && ks != [] && Distinct(ks) && forall k :: k in ks ==> k in Names(ms)
    ensures ReadMembers(r, MembersText(r.style, ms, ks) + ("}" + x)) == Some((ArrangedMembers(r.style, ms, ks), x))
    decreases ms, 0, |ks|
  {
    hide Inverts, MembersText, Canon, ReadMember, ReadMembers, WellFormed, Names, Arranged;
    var t, after := MembersText(r.style, ms, ks) + ("}" + x), AfterMember(r.style, ms, ks, x);
    ReadMemberInverts(r, ms, ks, x);
    ReadMembersStep(r, t, Member(ks[0], Arranged(r.style, Lookup(ms, ks[0]))), after);
    if |ks| == 1 {
      assert after[1..] == x;
      assert ArrangedMembers(r.style, ms, ks) == [Member(ks[0], Arranged(r.style, Lookup(ms, ks[0])))];
    } else {
      ReadMembersInverts(r, ms, ks[1..], x);
      ArrangedNames(r.style, ms, ks[1..]);
      assert after[1..] == MembersText(r.style, ms, ks[1..]) + ("}" + x);
      assert ks[0] !in ks[1..];
    }
  }

  lemma ReadMemberStep<N>(r: Reader<N>, t: string, k: string, later: string)
    requires t != "" && t[0] == '"' && ReadString(r, t[1..]) == Some((k, later)) && later != "" && later[0] == ':'
    requires ReadValue(r, later[1..]).Some?
    ensures ReadMember(r, t) == Some((Member(k, ReadValue(r, later[1..]).value.0), ReadValue(r, later[1..]).value.1))
  {
    hide ReadString, ReadValue;
  }

  lemma {:induction false} ReadMemberInverts<N(!new)>(r: Reader<N>, ms: seq<Member<N>>, ks: seq<string>, x: string)
    requires Inverts(r) && WellFormed(Obj(ms)) && ks != [] && forall k :: k in ks ==> k in Names(ms)
    ensures ReadMember(r, MembersText(r.style, ms, ks) + ("}" + x)) ==
      Some((Member(ks[0], Arranged(r.style, Lookup(ms, ks[0]))), AfterMember(r.style, ms, ks, x)))
    decreases ms, 0, 0
  {
    hide Inverts, ReadValue, ReadMember, MembersText, Canon, ReadString, Arranged, EscapeAll, Names, Lookup, WellFormed;
    var t, v, after := MembersText(r.style, ms, ks) + ("}" + x), Lookup(ms, ks[0]), AfterMember(r.style, ms, ks, x);
    MembersShape(r.style, ms, ks, x);
    var later := ":" + (Canon(r.style, v) + after);
    QuoteOpens(r.style.escape, ks[0], later);
    ReadStringInverts(r, ks[0], later);
    assert later[1..] == Canon(r.style, v) + after;
    LookupWellFormed(ms, ks[0]);
    LookupIsPart(ms, ks[0]);
    ReadInverts(r, v, after);
    ReadMemberStep(r, t, ks[0], later);
  }

  lemma QuoteOpens(esc: char -> string, s: string, x: string)
    ensures Quote(esc, s) + x != "" && (Quote(esc, s) + x)[0] == '"'
    ensures (Quote(esc, s) + x)[1..] == EscapeAll(esc, s) + ("\"" + x)
  {
    hide EscapeAll;
    assert Quote(esc, s) + x == "\"" + (EscapeAll(esc, s) + ("\"" + x));
  }

  // ---- Arranging keeps the meaning ----

  lemma {:induction false} ArrangedMeaning<N(!new)>(st: Style<N>, v: Json<N>)
    requires TotalOrder(st.keyLe) && WellFormed(v)
    ensures WellFormed(Arranged(st, v)) && Denote(Arranged(st, v)) == Denote(v)
    decreases v, 1
  {
    hide TotalOrder, Sort, Denote;
    match v {
      case Arr(xs) =>
        ArrangedItemsMeaning(st, xs);
        SameItemsSameMeaning(ArrangedItems(st, xs), xs);
      case Obj(ms) =>
        var ks := Sort(st.keyLe, Names(ms));
        SortedNamesOf(st, ms);
        ArrangedMembersMeaning(st, ms, ks);
        ArrangedObject(st, ms, ks);
      case _ =>
    }
  }

  lemma SortedNamesOf<N(!new)>(st: Style<N>, ms: seq<Member<N>>)
    requires WellFormed(Obj(ms))
    ensures var ks := Sort(st.keyLe, Names(ms));
      Distinct(ks) && forall k :: k in ks <==> k in Names(ms)
  {
    hide Sort, Names;
    var ks := Sort(st.keyLe, Names(ms));
    forall k ensures k in ks <==> k in Names(ms) {
      assert k in ks <==> k in multiset(ks);
      assert k in Names(ms) <==> k in multiset(Names(ms));
    }
    forall i, j | 0 <= i < j < |ks| ensures ks[i] != ks[j] {
      DistinctCount(Names(ms), ks[i]);
      if ks[i] == ks[j] { CountedTwice(ks, i, j); }
    }
  }

  lemma CountedTwice<T>(s: seq<T>, i: nat, j: nat)
    requires i < j < |s| && s[i] == s[j]
    ensures multiset(s)[s[i]] >= 2
  {
    assert s == s[..i] + [s[i]] + s[i + 1..j] + [s[j]] + s[j + 1..];
  }

  lemma {:induction false} ArrangedItemsMeaning<N(!new)>(st: Style<N>, xs: seq<Json<N>>)
    requires TotalOrder(st.keyLe) && forall i :: 0 <= i < |xs| ==> WellFormed(xs[i])
    ensures forall i :: 0 <= i < |xs| ==>
      WellFormed(ArrangedItems(st, xs)[i]) && Denote(ArrangedItems(st, xs)[i]) == Denote(xs[i])
    decreases xs, 0
  {
    hide TotalOrder, Arranged, Denote;
    if xs != [] {
      ArrangedMeaning(st, xs[0]);
      ArrangedItemsMeaning(st, xs[1..]);
      var ys := ArrangedItems(st, xs);
      forall i | 0 <= i < |xs| ensures WellFormed(ys[i]) && Denote(ys[i]) == Denote(xs[i]) {
        if i > 0 { assert ys[i] == ArrangedItems(st, xs[1..])[i - 1] && xs[i] == xs[1..][i - 1]; }
      }
    }
  }

  lemma {:induction false} ArrangedMembersMeaning<N(!new)>(st: Style<N>, ms: seq<Member<N>>, ks: seq<string>)
    requires TotalOrder(st.keyLe) && WellFormed(Obj(ms)) && forall k :: k in ks ==> k in Names(ms)
    ensures Matches(ms, ks, ArrangedMembers(st, ms, ks))
    decreases ms, 0, |ks|
  {
    hide TotalOrder, Arranged, Denote, Names, Lookup;
    if ks != [] {
      LookupWellFormed(ms, ks[0]);
      LookupIsPart(ms, ks[0]);
      ArrangedMeaning(st, Lookup(ms, ks[0]));
      ArrangedMembersMeaning(st, ms, ks[1..]);
      var ns := ArrangedMembers(st, ms, ks);
      forall i | 0 <= i < |ks|
        ensures ns[i].key == ks[i] && WellFormed(ns[i].value) && Denote(ns[i].value) == Denote(Lookup(ms, ks[i]))
      {
        if i > 0 { assert ns[i] == ArrangedMembers(st, ms, ks[1..])[i - 1] && ks[i] == ks[1..][i - 1]; }
      }
    }
  }

  lemma SameItemsSameMeaning<N(!new)>(xs: seq<Json<N>>, ys: seq<Json<N>>)
    requires |xs| == |ys|
    requires forall i :: 0 <= i < |xs| ==> Denote(xs[i]) == Denote(ys[i])
    ensures Denote(Arr(xs)) == Denote(Arr(ys))
  {
    assert Denote(Arr(xs)).items == Denote(Arr(ys)).items;
  }

  /** Members `ns` named `ks` that mean what `ms` says of those names. */
  ghost predicate Matches<N>(ms: seq<Member<N>>, ks: seq<string>, ns: seq<Member<N>>)
    requires forall k :: k in ks ==> k in Names(ms)
  {
    |ns| == |ks| && forall i :: 0 <= i < |ks| ==>
      ns[i].key == ks[i] && WellFormed(ns[i].value) && Denote(ns[i].value) == Denote(Lookup(ms, ks[i]))
  }

  lemma ArrangedObject<N(!new)>(st: Style<N>, ms: seq<Member<N>>, ks: seq<string>)
    requires WellFormed(Obj(ms)) && Distinct(ks) && forall k :: k in ks <==> k in Names(ms)
    requires Matches(ms, ks, ArrangedMembers(st, ms, ks))
    ensures WellFormed(Obj(ArrangedMembers(st, ms, ks)))
    ensures Denote(Obj(ArrangedMembers(st, ms, ks))) == Denote(Obj(ms))
  {
    hide Denote, Arranged, ArrangedMembers, Names, Lookup;
    var ns := ArrangedMembers(st, ms, ks);
    ArrangedNames(st, ms, ks);
    forall k | k in ks ensures Denote(Lookup(ns, k)) == Denote(Lookup(ms, k)) {
      var i :| 0 <= i < |ns| && ns[i].key == k && ns[i].value == Lookup(ns, k);
      assert ks[i] == k;
    }
    SameLookupsSameMeaning(ns, ms);
  }

  // ---- The parser accepts nothing else ----

  lemma {:induction false} ReadWellFormed<N>(r: Reader<N>, t: string)
    requires ReadValue(r, t).Some?
    ensures WellFormed(ReadValue(r, t).value.0)
    decreases |t|, 0
  {
    hide ReadString, ReadWord, WordEnd;
    if t[0] == '[' && !(|t| > 1 && t[1] == ']') {
      ReadItemsWellFormed(r, t[1..]);
    } else if t[0] == '{' && !(|t| > 1 && t[1] == '}') {
      ReadMembersWellFormed(r, t[1..]);
    } else if t[0] != '"' && t[0] != '[' && t[0] != '{' {
      WordsAreWellFormed(r, t[..WordEnd(t)]);
    }
  }

  lemma WordsAreWellFormed<N>(r: Reader<N>, word: string)
    ensures ReadWord(r, word).Some? ==> WellFormed(ReadWord(r, word).value)
  {
  }

  lemma {:induction false} ReadItemsWellFormed<N>(r: Reader<N>, t: string)
    requires ReadItems(r, t).Some?
    ensures forall i :: 0 <= i < |ReadItems(r, t).value.0| ==> WellFormed(ReadItems(r, t).value.0[i])
    decreases |t|, 1
  {
    hide ReadValue, WellFormed;
    ReadWellFormed(r, t);
    var rest := ReadValue(r, t).value.1;
    if rest[0] != ']' { ReadItemsWellFormed(r, rest[1..]); }
  }

  lemma {:induction false} ReadMembersWellFormed<N>(r: Reader<N>, t: string)
    requires ReadMembers(r, t).Some?
    ensures WellFormed(Obj(ReadMembers(r, t).value.0))
    decreases |t|, 1
  {
    hide ReadValue, ReadMember;
    ReadMemberWellFormed(r, t);
    var (m, rest) := ReadMember(r, t).value;
    var ms := ReadMembers(r, t).value.0;
    if rest[0] == '}' {
      assert Names(ms) == [m.key];
    } else {
      ReadMembersWellFormed(r, rest[1..]);
      assert ms[1..] == ReadMembers(r, rest[1..]).value.0;
      assert Names(ms) == [m.key] + Names(ms[1..]);
      assert forall i :: 0 < i < |ms| ==> ms[i] == ms[1..][i - 1];
    }
  }

  lemma {:induction false} ReadMemberWellFormed<N>(r: Reader<N>, t: string)
    requires ReadMember(r, t).Some?
    ensures WellFormed(ReadMember(r, t).value.0.value)
    decreases |t|, 0, 0
  {
    hide ReadString, ReadValue, WellFormed;
    var rest := ReadString(r, t[1..]).value.1;
    ReadWellFormed(r, rest[1..]);
  }

  // ---- The printer with the members as they stand ----

  function Written<N>(st: Style<N>, v: Json<N>): (t: string)
    decreases v
  {
    match v
    case Arr(xs) => "[" + WrittenItems(st, xs) + "]"
    case Obj(ms) => "{" + WrittenMembers(st, ms) + "}"
    case _ => Canon(st, v)
  }

  function WrittenItems<N>(st: Style<N>, xs: seq<Json<N>>): (t: string)
    decreases xs
  {
    if xs == [] then ""
    else Written(st, xs[0]) + (if |xs| == 1 then "" else "," + WrittenItems(st, xs[1..]))
  }

  function WrittenMembers<N>(st: Style<N>, ms: seq<Member<N>>): (t: string)
    decreases ms
  {
    if ms == [] then ""
    else
      Quote(st.escape, ms[0].key) + ":" + Written(st, ms[0].value) +
      (if |ms| == 1 then "" else "," + WrittenMembers(st, ms[1..]))
  }

  /** What the parser takes off the front of a text is what the printer writes for it. */
  lemma {:induction false} ReadIsWritten<N(!new)>(r: Reader<N>, t: string)
    requires Sound(r) && ReadValue(r, t).Some?
    ensures t == Written(r.style, ReadValue(r, t).value.0) + ReadValue(r, t).value.1
    decreases |t|, 0
  {
    hide ReadString, ReadWord, WordEnd, ReadItems, ReadMembers, WrittenItems, WrittenMembers, Sound;
    var (v, rest) := ReadValue(r, t).value;
    assert t == [t[0]] + t[1..];
    if t[0] == '"' {
      StringIsWritten(r, t[1..]);
      Assoc("\"", EscapeAll(r.style.escape, v.s) + "\"", rest);
      Assoc(EscapeAll(r.style.escape, v.s), "\"", rest);
    } else if t[0] == '[' {
      if |t| > 1 && t[1] == ']' {
        NothingWritten(r.style);
        assert t == "[]" + rest;
      } else {
        ItemsAreWritten(r, t[1..]);
        Bracketed("[", WrittenItems(r.style, v.items), "]", rest);
      }
    } else if t[0] == '{' {
      if |t| > 1 && t[1] == '}' {
        NothingWritten(r.style);
        assert t == "{}" + rest;
      } else {
        MembersAreWritten(r, t[1..]);
        Bracketed("{", WrittenMembers(r.style, v.members), "}", rest);
      }
    } else {
      WordIsWritten(r, t[..WordEnd(t)]);
    }
  }

  lemma NothingWritten<N>(st: Style<N>)
    ensures Written(st, Arr([])) == "[]" && Written(st, Obj([])) == "{}"
  {
  }

  lemma Bracketed(open: string, s: string, close: string, rest: string)
    ensures (open + s + close) + rest == open + (s + (close + rest))
  {
  }

  lemma {:induction false} StringIsWritten<N(!new)>(r: Reader<N>, t: string)
    requires Sound(r) && ReadString(r, t).Some?
    ensures t == EscapeAll(r.style.escape, ReadString(r, t).value.0) + ("\"" + ReadString(r, t).value.1)
    decreases |t|
  {
    var (s, rest) := ReadString(r, t).value;
    if t[0] == '"' {
      assert t == "\"" + rest;
    } else {
      var (c, n) := r.readChar(t).value;
      StringIsWritten(r, t[n..]);
      assert s == [c] + s[1..] && s[1..] == ReadString(r, t[n..]).value.0;
      assert t == t[..n] + t[n..];
      Assoc(r.style.escape(c), EscapeAll(r.style.escape, s[1..]), "\"" + rest);
    }
  }

  lemma WordIsWritten<N(!new)>(r: Reader<N>, word: string)
    requires Sound(r) && ReadWord(r, word).Some?
    ensures Written(r.style, ReadWord(r, word).value) == word
  {
  }

  lemma {:induction false} ItemsAreWritten<N(!new)>(r: Reader<N>, t: string)
    requires Sound(r) && ReadItems(r, t).Some?
    ensures t == WrittenItems(r.style, ReadItems(r, t).value.0) + ("]" + ReadItems(r, t).value.1)
    decreases |t|, 1
  {
    hide ReadValue, Written, Sound;
    ReadIsWritten(r, t);
    var (v, later) := ReadValue(r, t).value;
    var (xs, rest) := ReadItems(r, t).value;
    assert later == [later[0]] + later[1..];
    if later[0] == ']' {
      assert WrittenItems(r.style, [v]) == Written(r.style, v);
    } else {
      ItemsAreWritten(r, later[1..]);
      assert xs[1..] == ReadItems(r, later[1..]).value.0;
      var w := WrittenItems(r.style, xs[1..]);
      Joined(Written(r.style, v), w, "]" + rest);
    }
  }

  lemma Joined(a: string, b: string, rest: string)
    ensures (a + ("," + b)) + rest == a + ("," + (b + rest))
  {
  }

  lemma {:induction false} MembersAreWritten<N(!new)>(r: Reader<N>, t: string)
    requires Sound(r) && ReadMembers(r, t).Some?
    ensures t == WrittenMembers(r.style, ReadMembers(r, t).value.0) + ("}" + ReadMembers(r, t).value.1)
    decreases |t|, 1
  {
    hide ReadMember, Written, Sound, Quote;
    MemberIsWritten(r, t);
    var (m, later) := ReadMember(r, t).value;
    var (ms, rest) := ReadMembers(r, t).value;
    var first := Quote(r.style.escape, m.key) + ":" + Written(r.style, m.value);
    assert later == [later[0]] + later[1..];
    if later[0] == '}' {
      assert WrittenMembers(r.style, [m]) == first;
    } else {
      MembersAreWritten(r, later[1..]);
      assert ms[1..] == ReadMembers(r, later[1..]).value.0;
      var w := WrittenMembers(r.style, ms[1..]);
      assert WrittenMembers(r.style, ms) == first + ("," + w);
      Joined(first, w, "}" + rest);
    }
  }

  lemma {:induction false} MemberIsWritten<N(!new)>(r: Reader<N>, t: string)
    requires Sound(r) && ReadMember(r, t).Some?
    ensures var (m, rest) := ReadMember(r, t).value;
      t == (Quote(r.style.escape, m.key) + ":" + Written(r.style, m.value)) + rest
    decreases |t|, 0, 0
  {
    hide ReadString, ReadValue, Written, Sound, EscapeAll;
    var (m, rest) := ReadMember(r, t).value;
    StringIsWritten(r, t[1..]);
    var later := ReadString(r, t[1..]).value.1;
    ReadIsWritten(r, later[1..]);
    assert t == "\"" + t[1..] && later == ":" + later[1..];
    var e, w := EscapeAll(r.style.escape, m.key), Written(r.style, m.value);
    assert t == "\"" + (e + ("\"" + (":" + (w + rest))));
    assert Quote(r.style.escape, m.key) == "\"" + e + "\"";
  }

  // ---- In order, and as it stands ----

  /** Printing sorts the members and then writes what stands there. */
  lemma {:induction false} WrittenArranged<N>(st: Style<N>, v: Json<N>)
    ensures Written(st, Arranged(st, v)) == Canon(st, v)
    decreases v, 1
  {
    hide Sort;
    match v {
      case Arr(xs) => ItemsArranged(st, xs);
      case Obj(ms) =>
        assert forall k :: k in Sort(st.keyLe, Names(ms)) ==> k in multiset(Names(ms));
        MembersArranged(st, ms, Sort(st.keyLe, Names(ms)));
      case _ =>
    }
  }

  lemma {:induction false} ItemsArranged<N>(st: Style<N>, xs: seq<Json<N>>)
    ensures WrittenItems(st, ArrangedItems(st, xs)) == ItemsText(st, xs)
    decreases xs, 0
  {
    hide Written, Canon, Arranged;
    if xs != [] {
      WrittenArranged(st, xs[0]);
      ItemsArranged(st, xs[1..]);
      assert ArrangedItems(st, xs)[1..] == ArrangedItems(st, xs[1..]);
    }
  }

  lemma {:induction false} MembersArranged<N>(st: Style<N>, ms: seq<Member<N>>, ks: seq<string>)
    requires forall k :: k in ks ==> k in Names(ms)
    ensures WrittenMembers(st, ArrangedMembers(st, ms, ks)) == MembersText(st, ms, ks)
    decreases ms, 0, |ks|
  {
    hide Written, Canon, Arranged, Quote, Names, Lookup;
    if ks != [] {
      LookupIsPart(ms, ks[0]);
      WrittenArranged(st, Lookup(ms, ks[0]));
      MembersArranged(st, ms, ks[1..]);
      assert ArrangedMembers(st, ms, ks)[1..] == ArrangedMembers(st, ms, ks[1..]);
    }
  }

  /** A value has its members in order exactly when arranging leaves it alone. */
  lemma {:induction false} OrderedIffArranged<N(!new)>(st: Style<N>, v: Json<N>)
    requires TotalOrder(st.keyLe) && WellFormed(v)
    ensures Ordered(st, v) <==> Arranged(st, v) == v
  {
    if Ordered(st, v) { OrderedIsArranged(st, v); }
    if Arranged(st, v) == v { ArrangedIsOrdered(st, v); }
  }

  lemma {:induction false} OrderedIsArranged<N(!new)>(st: Style<N>, v: Json<N>)
    requires TotalOrder(st.keyLe) && WellFormed(v) && Ordered(st, v)
    ensures Arranged(st, v) == v
    decreases v, 1
  {
    hide TotalOrder, Sort, InOrder;
    match v {
      case Arr(xs) => ItemsStay(st, xs);
      case Obj(ms) =>
        InOrderIsSorted(st.keyLe, Names(ms));
        SortOfSorted(st.keyLe, Names(ms));
        MembersStay(st, ms, 0);
        assert Names(ms)[0..] == Names(ms) && ms[0..] == ms;
      case _ =>
    }
  }

  lemma {:induction false} ItemsStay<N(!new)>(st: Style<N>, xs: seq<Json<N>>)
    requires TotalOrder(st.keyLe) && forall i :: 0 <= i < |xs| ==> WellFormed(xs[i]) && Ordered(st, xs[i])
    ensures ArrangedItems(st, xs) == xs
    decreases xs, 0
  {
    hide TotalOrder, Arranged, WellFormed, Ordered;
    if xs != [] {
      OrderedIsArranged(st, xs[0]);
      ItemsStay(st, xs[1..]);
      assert xs == [xs[0]] + xs[1..];
    }
  }

  lemma {:induction false} MembersStay<N(!new)>(st: Style<N>, ms: seq<Member<N>>, i: nat)
    requires TotalOrder(st.keyLe) && i <= |ms| && Distinct(Names(ms))
    requires forall j :: 0 <= j < |ms| ==> WellFormed(ms[j].value) && Ordered(st, ms[j].value)
    ensures forall k :: k in Names(ms)[i..] ==> k in Names(ms)
    ensures ArrangedMembers(st, ms, Names(ms)[i..]) == ms[i..]
    decreases ms, 0, |ms| - i
  {
    hide TotalOrder, Arranged, WellFormed, Ordered, Names, Lookup;
    var ks := Names(ms);
    if i < |ms| {
      MembersStay(st, ms, i + 1);
      LookupAt(ms, i);
      OrderedIsArranged(st, ms[i].value);
      assert ks[i..][1..] == ks[i + 1..] && ks[i..][0] == ks[i];
      assert ms[i..] == [ms[i]] + ms[i + 1..];
    }
  }

  lemma {:induction false} LookupAt<N>(ms: seq<Member<N>>, i: nat)
    requires i < |ms| && Distinct(Names(ms))
    ensures ms[i].key in Names(ms) && Lookup(ms, ms[i].key) == ms[i].value
  {
    var ks := Names(ms);
    assert ks[i] == ms[i].key;
    if i > 0 {
      assert ks[0] != ks[i];
      assert ks[1..] == Names(ms[1..]);
      LookupAt(ms[1..], i - 1);
    }
  }

  lemma {:induction false} InOrderIsSorted(le: (string, string) -> bool, ks: seq<string>)
    requires TotalOrder(le) && InOrder(le, ks)
    ensures SortedBy(le, ks)
  {
    forall i, j | 0 <= i < j < |ks| ensures le(ks[i], ks[j]) { InOrderApart(le, ks, i, j); }
  }

  lemma {:induction false} InOrderApart(le: (string, string) -> bool, ks: seq<string>, i: nat, j: nat)
    requires TotalOrder(le) && InOrder(le, ks) && i < j < |ks|
    ensures le(ks[i], ks[j])
    decreases j
  {
    if i + 1 < j { InOrderApart(le, ks, i, j - 1); }
  }

  lemma {:induction false} ArrangedIsOrdered<N(!new)>(st: Style<N>, v: Json<N>)
    requires TotalOrder(st.keyLe) && WellFormed(v)
    ensures Ordered(st, Arranged(st, v))
    decreases v, 1
  {
    hide TotalOrder, Sort;
    match v {
      case Arr(xs) => ItemsOrdered(st, xs);
      case Obj(ms) =>
        var ks := Sort(st.keyLe, Names(ms));
        SortedNamesOf(st, ms);
        SortSorts(st.keyLe, Names(ms));
        ArrangedNames(st, ms, ks);
        MembersOrdered(st, ms, ks);
      case _ =>
    }
  }

  lemma {:induction false} ItemsOrdered<N(!new)>(st: Style<N>, xs: seq<Json<N>>)
    requires TotalOrder(st.keyLe) && forall i :: 0 <= i < |xs| ==> WellFormed(xs[i])
    ensures forall i :: 0 <= i < |xs| ==> Ordered(st, ArrangedItems(st, xs)[i])
    decreases xs, 0
  {
    hide TotalOrder, Arranged, WellFormed, Ordered;
    if xs != [] {
      ArrangedIsOrdered(st, xs[0]);
      ItemsOrdered(st, xs[1..]);
      var ys := ArrangedItems(st, xs);
      assert forall i :: 0 < i < |xs| ==> ys[i] == ArrangedItems(st, xs[1..])[i - 1];
    }
  }

  lemma {:induction false} MembersOrdered<N(!new)>(st: Style<N>, ms: seq<Member<N>>, ks: seq<string>)
    requires TotalOrder(st.keyLe) && WellFormed(Obj(ms)) && forall k :: k in ks ==> k in Names(ms)
    ensures forall i :: 0 <= i < |ks| ==> Ordered(st, ArrangedMembers(st, ms, ks)[i].value)
    decreases ms, 0, |ks|
  {
    hide TotalOrder, Arranged, WellFormed, Ordered, Names, Lookup;
    if ks != [] {
      LookupWellFormed(ms, ks[0]);
      LookupIsPart(ms, ks[0]);
      ArrangedIsOrdered(st, Lookup(ms, ks[0]));
      MembersOrdered(st, ms, ks[1..]);
      var ns := ArrangedMembers(st, ms, ks);
      assert forall i :: 0 < i < |ks| ==> ns[i] == ArrangedMembers(st, ms, ks[1..])[i - 1];
    }
  }

  // ---- The parser as a whole ----

  /** Reading back what was printed gives the value, with its members in the printed order. */
  lemma ReadPrinted<N(!new)>(r: Reader<N>, v: Json<N>)
    requires Inverts(r) && WellFormed(v)
    ensures ReadCanonical(r, Canon(r.style, v)) == Some(Arranged(r.style, v))
    ensures WellFormed(Arranged(r.style, v)) && Denote(Arranged(r.style, v)) == Denote(v)
  {
    var t := Canon(r.style, v);
    assert Lawful(r.style);
    hide Canon, ReadValue, Lawful, WellFormed, Denote, Arranged, Ordered;
    assert t + "" == t;
    ReadInverts(r, v, "");
    assert TotalOrder(r.style.keyLe) by { KeysAreOrdered(r.style); }
    ArrangedMeaning(r.style, v);
    ArrangedIsOrdered(r.style, v);
  }

  lemma KeysAreOrdered<N(!new)>(st: Style<N>)
    requires Lawful(st)
    ensures TotalOrder(st.keyLe)
  {
  }

  /** The parser accepts exactly the canonical texts of well-formed values, and returns the one
      value that has the text and its members in order. */
  lemma ReadIffCanonical<N(!new)>(r: Reader<N>, t: string, w: Json<N>)
    requires Inverts(r) && Sound(r)
    ensures ReadCanonical(r, t) == Some(w) <==> WellFormed(w) && Arranged(r.style, w) == w && Canon(r.style, w) == t
  {
    assert Lawful(r.style);
    hide Canon, ReadValue, WellFormed, Arranged, Inverts, Sound, Ordered, Written, Lawful;
    if ReadCanonical(r, t) == Some(w) {
      ReadWellFormed(r, t);
      KeysAreOrdered(r.style);
      OrderedIffArranged(r.style, w);
      ReadIsWritten(r, t);
      WrittenArranged(r.style, w);
      assert Written(r.style, w) + "" == Written(r.style, w);
    }
    if WellFormed(w) && Arranged(r.style, w) == w && Canon(r.style, w) == t {
      ReadPrinted(r, w);
    }
  }

  /** A text is canonical exactly when the parser accepts it. */
  lemma AcceptsIffCanonical<N(!new)>(r: Reader<N>, t: string)
    requires Inverts(r) && Sound(r)
    ensures ReadCanonical(r, t).Some? <==> exists v: Json<N> :: WellFormed(v) && Canon(r.style, v) == t
  {
    hide Canon, ReadCanonical, WellFormed, Arranged, Inverts, Sound;
    if ReadCanonical(r, t).Some? { ReadIffCanonical(r, t, ReadCanonical(r, t).value); }
    if v: Json<N> :| WellFormed(v) && Canon(r.style, v) == t { ReadPrinted(r, v); }
  }
}

/** The printer behind every canonical JSON text, and when two values print alike. */
module CanonicalJson {
  import opened Sorting

  /** A JSON value as a parsed document holds it: members keep the order they were written in. */
  datatype Json<+N> =
    | Null
    | Bool(b: bool)
    | Num(n: N)
    | Str(s: string)
    | Arr(items: seq<Json<N>>)
    | Obj(members: seq<Member<N>>)

  datatype Member<+N> = Member(key: string, value: Json<N>)

  /** What a JSON value means: an object is a mapping, so member order is gone. */
  datatype Value<+N> =
    | VNull
    | VBool(b: bool)
    | VNum(n: N)
    | VStr(s: string)
    | VArr(items: seq<Value<N>>)
    | VObj(members: map<string, Value<N>>)

  datatype Style<!N> = Style(escape: char -> string, numText: N -> string, keyLe: (string, string) -> bool)

  // ---- Members and meaning ----

  function Names<N>(ms: seq<Member<N>>): (r: seq<string>)
    ensures |r| == |ms| && forall i :: 0 <= i < |ms| ==> r[i] == ms[i].key
  {
    if ms == [] then [] else [ms[0].key] + Names(ms[1..])
  }

  function Lookup<N>(ms: seq<Member<N>>, k: string): (r: Json<N>)
    requires k in Names(ms)
    ensures exists i :: 0 <= i < |ms| && ms[i].key == k && ms[i].value == r
  {
    if ms[0].key == k then ms[0].value else
      assert Names(ms) == [ms[0].key] + Names(ms[1..]);
      assert forall i :: 0 <= i < |ms[1..]| ==> ms[1..][i] == ms[i + 1];
      Lookup(ms[1..], k)
  }

  ghost predicate Distinct<T>(s: seq<T>) {
    forall i, j :: 0 <= i < j < |s| ==> s[i] != s[j]
  }

  /** No object holds a member name twice; a2a_jcs.strict_loads rejects the rest. */
  ghost predicate WellFormed<N>(v: Json<N>)
    decreases v
  {
    match v
    case Arr(xs) => forall i :: 0 <= i < |xs| ==> WellFormed(xs[i])
    case Obj(ms) => Distinct(Names(ms)) && forall i :: 0 <= i < |ms| ==> WellFormed(ms[i].value)
    case _ => true
  }

  ghost function Denote<N>(v: Json<N>): Value<N>
    decreases v
  {
    match v
    case Null => VNull
    case Bool(b) => VBool(b)
    case Num(n) => VNum(n)
    case Str(s) => VStr(s)
    case Arr(xs) => VArr(seq(|xs|, i requires 0 <= i < |xs| => Denote(xs[i])))
    case Obj(ms) => VObj(map k | k in Names(ms) :: Denote(Lookup(ms, k)))
  }

  // ---- The printer ----

  function EscapeAll(esc: char -> string, s: string): (r: string) {
    if s == [] then [] else esc(s[0]) + EscapeAll(esc, s[1..])
  }

  function Quote(esc: char -> string, s: string): (r: string) { ['"'] + EscapeAll(esc, s) + ['"'] }

  function Canon<N>(st: Style<N>, v: Json<N>): (r: string)
    decreases v
  {
    match v
    case Null => "null"
    case Bool(b) => if b then "true" else "false"
    case Num(n) => st.numText(n)
    case Str(s) => Quote(st.escape, s)
    case Arr(xs) => "[" + ItemsText(st, xs) + "]"
    case Obj(ms) =>
      assert forall k :: k in Sort(st.keyLe, Names(ms)) ==> k in multiset(Names(ms));
      "{" + MembersText(st, ms, Sort(st.keyLe, Names(ms))) + "}"
  }

  function ItemsText<N>(st: Style<N>, xs: seq<Json<N>>): (r: string)
    decreases xs
  {
    if xs == [] then ""
    else Canon(st, xs[0]) + (if |xs| == 1 then "" else "," + ItemsText(st, xs[1..]))
  }

  /** The members named `ks`, in that order, each value looked up by name. */
  function MembersText<N>(st: Style<N>, ms: seq<Member<N>>, ks: seq<string>): (r: string)
    requires forall k :: k in ks ==> k in Names(ms)
    decreases ms, |ks|
  {
    if ks == [] then ""
    else
      Quote(st.escape, ks[0]) + ":" + Canon(st, Lookup(ms, ks[0])) +
      (if |ks| == 1 then "" else "," + MembersText(st, ms, ks[1..]))
  }

  /** The text of an object with one member. */
  lemma OneMember<N>(st: Style<N>, k: string, v: Json<N>)
    ensures Canon(st, Obj([Member(k, v)])) == "{" + (Quote(st.escape, k) + ":" + Canon(st, v)) + "}"
  {
    hide Quote, EscapeAll;
    var ms := [Member(k, v)];
    assert Names(ms) == [k] && Names(ms)[1..] == [];
    assert Sort(st.keyLe, Names(ms)) == [k];
    ObjectIs(st, ms, [k]);
    assert MembersText(st, ms, [k]) == Quote(st.escape, k) + ":" + Canon(st, v);
  }

  // ---- Members stand in the order of their names ----

  function MemberText<N>(st: Style<N>, ms: seq<Member<N>>, k: string): (t: string)
    requires k in Names(ms)
  {
    Quote(st.escape, k) + ":" + Canon(st, Lookup(ms, k))
  }

  lemma {:induction false} TextFrom<N>(st: Style<N>, ms: seq<Member<N>>, ks: seq<string>, i: nat)
    returns (a: string, c: string)
    requires i < |ks| && forall k :: k in ks ==> k in Names(ms)
    ensures MembersText(st, ms, ks) == a + MemberText(st, ms, ks[i]) + c
    ensures i + 1 < |ks| ==> c == "," + MembersText(st, ms, ks[i + 1..])
    decreases i
  {
    hide Canon, Quote, Names, Lookup;
    var tail := if |ks| == 1 then "" else "," + MembersText(st, ms, ks[1..]);
    assert MembersText(st, ms, ks) == MemberText(st, ms, ks[0]) + tail;
    if i == 0 {
      a, c := "", tail;
    } else {
      var b, d := TextFrom(st, ms, ks[1..], i - 1);
      a, c := MemberText(st, ms, ks[0]) + "," + b, d;
      assert ks[1..][i..] == ks[i + 1..];
    }
  }

  /** Of two members of an object, the one whose name comes first in the style's order is printed
      first. */
  lemma SmallerNameFirst<N(!new)>(st: Style<N>, ms: seq<Member<N>>, x: string, y: string)
    returns (a: string, b: string, c: string)
    requires TotalOrder(st.keyLe) && x in Names(ms) && y in Names(ms) && x != y && st.keyLe(x, y)
    ensures Canon(st, Obj(ms)) == a + MemberText(st, ms, x) + b + MemberText(st, ms, y) + c
  {
    hide Canon, MembersText, Sort, TotalOrder, Names, Lookup, MemberText;
    var ks := Sort(st.keyLe, Names(ms));
    SameElements(ks, Names(ms));
    var i, j := SortedPlaces(st.keyLe, Names(ms), x, y);
    var front, rest := TextFrom(st, ms, ks, i);
    var later, end := TextFrom(st, ms, ks[i + 1..], j - i - 1);
    assert ks[i + 1..][j - i - 1] == y;
    a, b, c := "{" + front, "," + later, end + "}";
    ObjectIs(st, ms, ks);
  }

  lemma ObjectIs<N>(st: Style<N>, ms: seq<Member<N>>, ks: seq<string>)
    requires ks == Sort(st.keyLe, Names(ms)) && forall k :: k in ks ==> k in Names(ms)
    ensures Canon(st, Obj(ms)) == "{" + MembersText(st, ms, ks) + "}"
  {
    hide MembersText, Sort, Names;
  }

  // ---- What a lawful style promises ----

  predicate Delimiter(c: char) { c == ',' || c == ']' || c == '}' }

  ghost predicate NumberText(t: string) {
    && t != ""
    && t[0] !in "\"[{tfn"
    && forall i :: 0 <= i < |t| ==> !Delimiter(t[i])
  }

  /** No escape sequence is empty, opens with a quote, or is cut short by another. */
  ghost predicate PrefixCode(esc: char -> string) {
    && (forall c :: esc(c) != "" && esc(c)[0] != '"')
    && (forall c, d, x: string, y: string :: esc(c) + x == esc(d) + y ==> c == d && x == y)
  }

  ghost predicate Lawful<N(!new)>(st: Style<N>) {
    && PrefixCode(st.escape)
    && TotalOrder(st.keyLe)
    && (forall n :: NumberText(st.numText(n)))
    && (forall m, n :: st.numText(m) == st.numText(n) ==> m == n)
  }

  // ---- Same meaning, same text ----

  lemma DistinctListsSameSet<T>(a: seq<T>, b: seq<T>)
    requires Distinct(a) && Distinct(b)
    requires forall x :: x in a <==> x in b
    ensures multiset(a) == multiset(b)
  {
    forall x ensures multiset(a)[x] == multiset(b)[x] {
      DistinctCount(a, x);
      DistinctCount(b, x);
    }
  }

  lemma {:induction false} DistinctCount<T>(a: seq<T>, x: T)
    requires Distinct(a)
    ensures multiset(a)[x] == if x in a then 1 else 0
  {
    if a != [] {
      assert a == [a[0]] + a[1..];
      DistinctCount(a[1..], x);
    }
  }

  lemma LookupWellFormed<N>(ms: seq<Member<N>>, k: string)
    requires WellFormed(Obj(ms)) && k in Names(ms)
    ensures WellFormed(Lookup(ms, k))
  {
  }

  lemma {:induction false} SameMeaningSameText<N(!new)>(st: Style<N>, v: Json<N>, w: Json<N>)
    requires Lawful(st) && WellFormed(v) && WellFormed(w) && Denote(v) == Denote(w)
    ensures Canon(st, v) == Canon(st, w)
    decreases v, 1
  {
    match v {
      case Arr(xs) =>
        assert |xs| == |Denote(v).items| == |Denote(w).items| == |w.items|;
        forall i | 0 <= i < |xs| ensures Denote(xs[i]) == Denote(w.items[i]) {
          assert Denote(v).items[i] == Denote(w).items[i];
        }
        SameItemsSameText(st, xs, w.items);
      case Obj(ms) =>
        var m := Denote(v).members;
        assert m == Denote(w).members;
        forall k ensures k in Names(ms) <==> k in Names(w.members) {
          assert k in m <==> k in Names(ms);
          assert k in m <==> k in Names(w.members);
        }
        DistinctListsSameSet(Names(ms), Names(w.members));
        SortDependsOnMultiset(st.keyLe, Names(ms), Names(w.members));
        var ks := Sort(st.keyLe, Names(ms));
        forall k | k in ks ensures k in Names(ms) && k in Names(w.members) {
          assert k in multiset(ks);
        }
        forall k | k in ks ensures Denote(Lookup(ms, k)) == Denote(Lookup(w.members, k)) {
          assert m[k] == Denote(Lookup(ms, k));
        }
        SameMembersSameText(st, ms, w.members, ks);
      case _ =>
    }
  }

  lemma {:induction false} SameItemsSameText<N(!new)>(st: Style<N>, xs: seq<Json<N>>, ys: seq<Json<N>>)
    requires Lawful(st) && |xs| == |ys|
    requires forall i :: 0 <= i < |xs| ==> WellFormed(xs[i]) && WellFormed(ys[i]) && Denote(xs[i]) == Denote(ys[i])
    ensures ItemsText(st, xs) == ItemsText(st, ys)
    decreases xs, 0
  {
    if xs != [] {
      SameMeaningSameText(st, xs[0], ys[0]);
      SameItemsSameText(st, xs[1..], ys[1..]);
    }
  }

  lemma {:induction false} SameMembersSameText<N(!new)>(
      st: Style<N>, ms: seq<Member<N>>, ns: seq<Member<N>>, ks: seq<string>)
    requires Lawful(st) && WellFormed(Obj(ms)) && WellFormed(Obj(ns))
    requires forall k :: k in ks ==> k in Names(ms) && k in Names(ns)
    requires forall k :: k in ks ==> Denote(Lookup(ms, k)) == Denote(Lookup(ns, k))
    ensures MembersText(st, ms, ks) == MembersText(st, ns, ks)
    decreases ms, 0, |ks|
  {
    if ks != [] {
      LookupWellFormed(ms, ks[0]);
      LookupWellFormed(ns, ks[0]);
      SameMeaningSameText(st, Lookup(ms, ks[0]), Lookup(ns, ks[0]));
      SameMembersSameText(st, ms, ns, ks[1..]);
    }
  }

  // ---- Same text, same meaning ----

  /** What may follow a value inside a larger text. */
  predicate Follow(x: string) { x == "" || Delimiter(x[0]) }

  lemma Assoc(a: string, b: string, c: string)
    ensures (a + b) + c == a + (b + c)
  {
  }

  lemma DropFirst(c: string, a: string, b: string)
    requires |c| == 1 && c + a == c + b
    ensures a == b
  {
    assert (c + a)[1..] == a && (c + b)[1..] == b;
  }

  lemma {:induction false} EscapeAllPrefixFree(esc: char -> string, s: string, t: string, x: string, y: string)
    requires PrefixCode(esc)
    requires EscapeAll(esc, s) + ("\"" + x) == EscapeAll(esc, t) + ("\"" + y)
    ensures s == t && x == y
  {
    EscapeAllHead(esc, s, x);
    EscapeAllHead(esc, t, y);
    if s == [] {
      assert EscapeAll(esc, s) + ("\"" + x) == "\"" + x && EscapeAll(esc, t) + ("\"" + y) == "\"" + y;
      DropFirst("\"", x, y);
    } else {
      var p, q := EscapeAll(esc, s[1..]) + ("\"" + x), EscapeAll(esc, t[1..]) + ("\"" + y);
      Assoc(esc(s[0]), EscapeAll(esc, s[1..]), "\"" + x);
      Assoc(esc(t[0]), EscapeAll(esc, t[1..]), "\"" + y);
      assert esc(s[0]) + p == esc(t[0]) + q;
      EscapeAllPrefixFree(esc, s[1..], t[1..], x, y);
      assert s == [s[0]] + s[1..] && t == [t[0]] + t[1..];
    }
  }

  lemma EscapeAllHead(esc: char -> string, s: string, x: string)
    requires PrefixCode(esc)
    ensures s == [] <==> (EscapeAll(esc, s) + ("\"" + x))[0] == '"'
  {
    if s != [] { assert (EscapeAll(esc, s) + ("\"" + x))[0] == esc(s[0])[0]; }
  }

  lemma QuotePrefixFree(esc: char -> string, s: string, t: string, x: string, y: string)
    requires PrefixCode(esc)
    requires Quote(esc, s) + x == Quote(esc, t) + y
    ensures s == t && x == y
  {
    assert Quote(esc, s) + x == "\"" + (EscapeAll(esc, s) + ("\"" + x));
    assert Quote(esc, t) + y == "\"" + (EscapeAll(esc, t) + ("\"" + y));
    DropFirst("\"", EscapeAll(esc, s) + ("\"" + x), EscapeAll(esc, t) + ("\"" + y));
    EscapeAllPrefixFree(esc, s, t, x, y);
  }

  /** A delimiter-free word followed by a delimiter or the end is determined by the text. */
  lemma WordPrefixFree(s: string, t: string, x: string, y: string)
    requires forall i :: 0 <= i < |s| ==> !Delimiter(s[i])
    requires forall i :: 0 <= i < |t| ==> !Delimiter(t[i])
    requires Follow(x) && Follow(y) && s + x == t + y
    ensures s == t && x == y
  {
    WordNotShorter(s, t, x, y);
    WordNotShorter(t, s, y, x);
    var a, b := s + x, t + y;
    assert s == a[..|s|] && t == b[..|t|] && x == a[|s|..] && y == b[|t|..];
  }

  lemma WordNotShorter(s: string, t: string, x: string, y: string)
    requires forall i :: 0 <= i < |t| ==> !Delimiter(t[i])
    requires Follow(x) && s + x == t + y
    ensures |s| >= |t|
  {
    assert forall i :: 0 <= i < |t| ==> (t + y)[i] == t[i];
    assert forall i :: 0 <= i < |x| ==> (s + x)[|s| + i] == x[i];
  }

  /** The first character of a value's text tells its kind. */
  lemma FirstChar<N(!new)>(st: Style<N>, v: Json<N>)
    requires Lawful(st)
    ensures Canon(st, v) != "" && !Delimiter(Canon(st, v)[0])
    ensures v.Null? <==> Canon(st, v)[0] == 'n'
    ensures v == Bool(true) <==> Canon(st, v)[0] == 't'
    ensures v == Bool(false) <==> Canon(st, v)[0] == 'f'
    ensures v.Str? <==> Canon(st, v)[0] == '"'
    ensures v.Arr? <==> Canon(st, v)[0] == '['
    ensures v.Obj? <==> Canon(st, v)[0] == '{'
  {
    match v {
      case Num(n) => assert NumberText(st.numText(n));
      case _ =>
    }
  }

  /** The text after the first item of an array that is followed by `x`. */
  function AfterItem<N>(st: Style<N>, xs: seq<Json<N>>, x: string): (r: string)
    requires xs != []
  {
    if |xs| == 1 then "]" + x else "," + (ItemsText(st, xs[1..]) + ("]" + x))
  }

  lemma ItemsShape<N>(st: Style<N>, xs: seq<Json<N>>, x: string)
    requires xs != []
    ensures ItemsText(st, xs) + ("]" + x) == Canon(st, xs[0]) + AfterItem(st, xs, x)
  {
    var tail := if |xs| == 1 then "" else "," + ItemsText(st, xs[1..]);
    Assoc(Canon(st, xs[0]), tail, "]" + x);
    if |xs| != 1 { Assoc(",", ItemsText(st, xs[1..]), "]" + x); }
  }

  /** The text after the first member's value in an object that is followed by `x`. */
  function AfterMember<N>(st: Style<N>, ms: seq<Member<N>>, ks: seq<string>, x: string): (r: string)
    requires ks != [] && forall k :: k in ks ==> k in Names(ms)
  {
    if |ks| == 1 then "}" + x else "," + (MembersText(st, ms, ks[1..]) + ("}" + x))
  }

  lemma MembersShape<N>(st: Style<N>, ms: seq<Member<N>>, ks: seq<string>, x: string)
    requires ks != [] && forall k :: k in ks ==> k in Names(ms)
    ensures MembersText(st, ms, ks) + ("}" + x) ==
      Quote(st.escape, ks[0]) + (":" + (Canon(st, Lookup(ms, ks[0])) + AfterMember(st, ms, ks, x)))
  {
    var tail := if |ks| == 1 then "" else "," + MembersText(st, ms, ks[1..]);
    var value := Canon(st, Lookup(ms, ks[0]));
    var rest := AfterMember(st, ms, ks, x);
    if |ks| != 1 { Assoc(",", MembersText(st, ms, ks[1..]), "}" + x); }
    assert tail + ("}" + x) == rest;
    calc {
      MembersText(st, ms, ks) + ("}" + x);
      (Quote(st.escape, ks[0]) + ":" + value + tail) + ("}" + x);
      { Assoc(Quote(st.escape, ks[0]) + ":" + value, tail, "}" + x); }
      (Quote(st.escape, ks[0]) + ":" + value) + rest;
      { Assoc(Quote(st.escape, ks[0]) + ":", value, rest); }
      (Quote(st.escape, ks[0]) + ":") + (value + rest);
      { Assoc(Quote(st.escape, ks[0]), ":", value + rest); }
      Quote(st.escape, ks[0]) + (":" + (value + rest));
    }
  }

  lemma {:induction false} CanonPrefixFree<N(!new)>(st: Style<N>, v: Json<N>, w: Json<N>, x: string, y: string)
    requires Lawful(st) && WellFormed(v) && WellFormed(w)
    requires Follow(x) && Follow(y) && Canon(st, v) + x == Canon(st, w) + y
    ensures Denote(v) == Denote(w) && x == y
    decreases v, 1
  {
    FirstChar(st, v);
    FirstChar(st, w);
    assert (Canon(st, v) + x)[0] == Canon(st, v)[0] && (Canon(st, w) + y)[0] == Canon(st, w)[0];
    match v {
      case Num(n) =>
        assert NumberText(st.numText(n)) && NumberText(st.numText(w.n));
        WordPrefixFree(st.numText(n), st.numText(w.n), x, y);
      case Str(s) => QuotePrefixFree(st.escape, s, w.s, x, y);
      case Arr(xs) => ArrayPrefixFree(st, xs, w.items, x, y);
      case Obj(ms) => ObjectPrefixFree(st, ms, w.members, x, y);
      case _ => WordPrefixFree(Canon(st, v), Canon(st, w), x, y);
    }
  }

  lemma {:induction false} ArrayPrefixFree<N(!new)>(
      st: Style<N>, xs: seq<Json<N>>, ys: seq<Json<N>>, x: string, y: string)
    requires Lawful(st) && WellFormed(Arr(xs)) && WellFormed(Arr(ys))
    requires Canon(st, Arr(xs)) + x == Canon(st, Arr(ys)) + y
    ensures Denote(Arr(xs)) == Denote(Arr(ys)) && x == y
    decreases xs, 1
  {
    Assoc("[", ItemsText(st, xs), "]");
    Assoc("[", ItemsText(st, ys), "]");
    Assoc("[", ItemsText(st, xs) + "]", x);
    Assoc("[", ItemsText(st, ys) + "]", y);
    Assoc(ItemsText(st, xs), "]", x);
    Assoc(ItemsText(st, ys), "]", y);
    DropFirst("[", ItemsText(st, xs) + ("]" + x), ItemsText(st, ys) + ("]" + y));
    ItemsPrefixFree(st, xs, ys, x, y);
  }

  lemma {:induction false} ItemsPrefixFree<N(!new)>(
      st: Style<N>, xs: seq<Json<N>>, ys: seq<Json<N>>, x: string, y: string)
    requires Lawful(st)
    requires forall i :: 0 <= i < |xs| ==> WellFormed(xs[i])
    requires forall i :: 0 <= i < |ys| ==> WellFormed(ys[i])
    requires ItemsText(st, xs) + ("]" + x) == ItemsText(st, ys) + ("]" + y)
    ensures |xs| == |ys| && x == y
    ensures forall i :: 0 <= i < |xs| ==> Denote(xs[i]) == Denote(ys[i])
    decreases xs, 0
  {
    hide Canon, Denote, WellFormed, Lawful;
    ItemsHead(st, xs, x);
    ItemsHead(st, ys, y);
    if xs == [] {
      assert ItemsText(st, xs) + ("]" + x) == "]" + x && ItemsText(st, ys) + ("]" + y) == "]" + y;
      DropFirst("]", x, y);
    } else {
      ItemsShape(st, xs, x);
      ItemsShape(st, ys, y);
      var p, q := AfterItem(st, xs, x), AfterItem(st, ys, y);
      CanonPrefixFree(st, xs[0], ys[0], p, q);
      assert p[0] == q[0];
      if |xs| == 1 {
        DropFirst("]", x, y);
      } else {
        DropFirst(",", ItemsText(st, xs[1..]) + ("]" + x), ItemsText(st, ys[1..]) + ("]" + y));
        ItemsPrefixFree(st, xs[1..], ys[1..], x, y);
        SameItems(xs, ys);
      }
    }
  }

  lemma SameItems<N>(xs: seq<Json<N>>, ys: seq<Json<N>>)
    requires xs != [] && |xs| == |ys| && Denote(xs[0]) == Denote(ys[0])
    requires forall i :: 0 <= i < |xs[1..]| ==> Denote(xs[1..][i]) == Denote(ys[1..][i])
    ensures forall i :: 0 <= i < |xs| ==> Denote(xs[i]) == Denote(ys[i])
  {
    hide Denote;
    forall i | 0 < i < |xs| ensures Denote(xs[i]) == Denote(ys[i]) {
      assert Denote(xs[1..][i - 1]) == Denote(ys[1..][i - 1]);
    }
  }

  lemma ItemsHead<N(!new)>(st: Style<N>, xs: seq<Json<N>>, x: string)
    requires Lawful(st)
    ensures xs == [] <==> (ItemsText(st, xs) + ("]" + x))[0] == ']'
  {
    if xs != [] {
      FirstChar(st, xs[0]);
      ItemsShape(st, xs, x);
    }
  }

  lemma {:induction false} ObjectPrefixFree<N(!new)>(
      st: Style<N>, ms: seq<Member<N>>, ns: seq<Member<N>>, x: string, y: string)
    requires Lawful(st) && WellFormed(Obj(ms)) && WellFormed(Obj(ns))
    requires Canon(st, Obj(ms)) + x == Canon(st, Obj(ns)) + y
    ensures Denote(Obj(ms)) == Denote(Obj(ns)) && x == y
    decreases ms, 1
  {
    hide MembersText, Sort, Denote, Lawful, Lookup, Names;
    var j, k := Sort(st.keyLe, Names(ms)), Sort(st.keyLe, Names(ns));
    forall n ensures n in j <==> n in Names(ms) { assert n in multiset(j) <==> n in multiset(Names(ms)); }
    forall n ensures n in k <==> n in Names(ns) { assert n in multiset(k) <==> n in multiset(Names(ns)); }
    var t, u := MembersText(st, ms, j), MembersText(st, ns, k);
    Assoc("{", t, "}");
    Assoc("{", u, "}");
    Assoc("{", t + "}", x);
    Assoc("{", u + "}", y);
    Assoc(t, "}", x);
    Assoc(u, "}", y);
    DropFirst("{", t + ("}" + x), u + ("}" + y));
    MembersPrefixFree(st, ms, j, ns, k, x, y);
    SameLookupsSameMeaning(ms, ns);
  }

  lemma SameLookupsSameMeaning<N(!new)>(ms: seq<Member<N>>, ns: seq<Member<N>>)
    requires forall n :: n in Names(ms) <==> n in Names(ns)
    requires Agree(ms, ns, Names(ms))
    ensures Denote(Obj(ms)) == Denote(Obj(ns))
  {
    hide Names, Lookup;
    assert Denote(Obj(ms)).members == Denote(Obj(ns)).members;
  }

  lemma {:induction false} MembersPrefixFree<N(!new)>(
      st: Style<N>, ms: seq<Member<N>>, j: seq<string>, ns: seq<Member<N>>, k: seq<string>, x: string, y: string)
    requires Lawful(st) && WellFormed(Obj(ms)) && WellFormed(Obj(ns))
    requires (forall n :: n in j ==> n in Names(ms)) && (forall n :: n in k ==> n in Names(ns))
    requires MembersText(st, ms, j) + ("}" + x) == MembersText(st, ns, k) + ("}" + y)
    ensures j == k && x == y && Agree(ms, ns, j)
    decreases ms, 0, |j|
  {
    hide Canon, Denote, Agree, AfterMember, MembersText, WellFormed, Lawful, Names, Lookup;
    MembersHead(st, ms, j, x);
    MembersHead(st, ns, k, y);
    AgreeNothing(ms, ns);
    if j == [] {
      NoMembersText(st, ms);
      NoMembersText(st, ns);
      assert "" + ("}" + x) == "}" + x && "" + ("}" + y) == "}" + y;
      DropFirst("}", x, y);
    } else {
      EscapesOf(st);
      FirstMember(st, ms, j, ns, k, x, y);
      AfterMemberFollows(st, ms, j, x);
      AfterMemberFollows(st, ns, k, y);
      LookupIsPart(ms, j[0]);
      var u, v := Lookup(ms, j[0]), Lookup(ns, k[0]);
      LookupWellFormed(ms, j[0]);
      LookupWellFormed(ns, k[0]);
      CanonPrefixFree(st, u, v, AfterMember(st, ms, j, x), AfterMember(st, ns, k, y));
      LaterMembers(st, ms, j, ns, k, x, y);
      if |j| > 1 { MembersPrefixFree(st, ms, j[1..], ns, k[1..], x, y); }
      assert |j| == 1 ==> j[1..] == [] && k[1..] == [];
      AgreeFirst(ms, ns, j, k);
    }
  }

  lemma NoMembersText<N>(st: Style<N>, ms: seq<Member<N>>)
    ensures MembersText(st, ms, []) == ""
  {
  }

  lemma EscapesOf<N(!new)>(st: Style<N>)
    requires Lawful(st)
    ensures PrefixCode(st.escape)
  {
  }

  lemma AfterMemberFollows<N>(st: Style<N>, ms: seq<Member<N>>, ks: seq<string>, x: string)
    requires ks != [] && forall k :: k in ks ==> k in Names(ms)
    ensures Follow(AfterMember(st, ms, ks, x))
  {
  }

  lemma LookupIsPart<N>(ms: seq<Member<N>>, k: string)
    requires k in Names(ms)
    ensures Lookup(ms, k) < Obj(ms)
  {
  }

  lemma AgreeNothing<N(!new)>(ms: seq<Member<N>>, ns: seq<Member<N>>)
    ensures Agree(ms, ns, [])
  {
  }

  /** Two objects give the names `ks` the same meaning. */
  ghost predicate Agree<N(!new)>(ms: seq<Member<N>>, ns: seq<Member<N>>, ks: seq<string>) {
    forall n :: n in ks ==> n in Names(ms) && n in Names(ns) && Denote(Lookup(ms, n)) == Denote(Lookup(ns, n))
  }

  lemma AgreeFirst<N(!new)>(ms: seq<Member<N>>, ns: seq<Member<N>>, j: seq<string>, k: seq<string>)
    requires j != [] && k != [] && j[0] == k[0] && j[1..] == k[1..]
    requires j[0] in Names(ms) && j[0] in Names(ns) && Denote(Lookup(ms, j[0])) == Denote(Lookup(ns, j[0]))
    requires Agree(ms, ns, j[1..])
    ensures j == k && Agree(ms, ns, j)
  {
    assert j == [j[0]] + j[1..] && k == [k[0]] + k[1..];
  }

  lemma FirstMember<N(!new)>(
      st: Style<N>, ms: seq<Member<N>>, j: seq<string>, ns: seq<Member<N>>, k: seq<string>, x: string, y: string)
    requires PrefixCode(st.escape)
    requires (forall n :: n in j ==> n in Names(ms)) && (forall n :: n in k ==> n in Names(ns))
    requires j != [] && k != []
    requires MembersText(st, ms, j) + ("}" + x) == MembersText(st, ns, k) + ("}" + y)
    ensures j[0] == k[0]
    ensures Canon(st, Lookup(ms, j[0])) + AfterMember(st, ms, j, x) ==
            Canon(st, Lookup(ns, k[0])) + AfterMember(st, ns, k, y)
  {
    MembersShape(st, ms, j, x);
    MembersShape(st, ns, k, y);
    var p := Canon(st, Lookup(ms, j[0])) + AfterMember(st, ms, j, x);
    var q := Canon(st, Lookup(ns, k[0])) + AfterMember(st, ns, k, y);
    QuotePrefixFree(st.escape, j[0], k[0], ":" + p, ":" + q);
    DropFirst(":", p, q);
  }

  lemma LaterMembers<N(!new)>(
      st: Style<N>, ms: seq<Member<N>>, j: seq<string>, ns: seq<Member<N>>, k: seq<string>, x: string, y: string)
    requires (forall n :: n in j ==> n in Names(ms)) && (forall n :: n in k ==> n in Names(ns))
    requires j != [] && k != [] && AfterMember(st, ms, j, x) == AfterMember(st, ns, k, y)
    ensures |j| == 1 <==> |k| == 1
    ensures |j| == 1 ==> x == y
    ensures |j| > 1 ==> MembersText(st, ms, j[1..]) + ("}" + x) == MembersText(st, ns, k[1..]) + ("}" + y)
  {
    assert AfterMember(st, ms, j, x)[0] == AfterMember(st, ns, k, y)[0];
    if |j| == 1 {
      DropFirst("}", x, y);
    } else {
      DropFirst(",", MembersText(st, ms, j[1..]) + ("}" + x), MembersText(st, ns, k[1..]) + ("}" + y));
    }
  }

  lemma MembersHead<N>(st: Style<N>, ms: seq<Member<N>>, ks: seq<string>, x: string)
    requires forall k :: k in ks ==> k in Names(ms)
    ensures ks == [] <==> (MembersText(st, ms, ks) + ("}" + x))[0] == '}'
  {
    if ks != [] { MembersShape(st, ms, ks, x); }
  }

  /** Canonical text is a complete invariant of meaning. */
  lemma CanonicalTextIffSameMeaning<N(!new)>(st: Style<N>, v: Json<N>, w: Json<N>)
    requires Lawful(st) && WellFormed(v) && WellFormed(w)
    ensures Canon(st, v) == Canon(st, w) <==> Denote(v) == Denote(w)
  {
    if Denote(v) == Denote(w) { SameMeaningSameText(st, v, w); }
    if Canon(st, v) == Canon(st, w) {
      assert Canon(st, v) + "" == Canon(st, w) + "";
      CanonPrefixFree(st, v, w, "", "");
    }
  }
}

/** Sorting under a total order, and the two orders on strings in use. */
module Sorting {

  ghost predicate TotalOrder<T(!new)>(le: (T, T) -> bool) {
    && (forall x, y :: le(x, y) || le(y, x))
    && (forall x, y :: le(x, y) && le(y, x) ==> x == y)
    && (forall x, y, z :: le(x, y) && le(y, z) ==> le(x, z))
  }

  ghost predicate SortedBy<T>(le: (T, T) -> bool, s: seq<T>) {
    forall i, j :: 0 <= i < j < |s| ==> le(s[i], s[j])
  }

  function Insert<T>(le: (T, T) -> bool, x: T, s: seq<T>): (r: seq<T>)
    ensures multiset(r) == multiset(s) + multiset{x}
  {
    if s == [] then [x]
    else if le(x, s[0]) then [x] + s
    else
      assert s == [s[0]] + s[1..];
      [s[0]] + Insert(le, x, s[1..])
  }

  /** The list in ascending order, repetitions kept. */
  function Sort<T>(le: (T, T) -> bool, s: seq<T>): (r: seq<T>)
    ensures multiset(r) == multiset(s)
    ensures |r| == |s|
  {
    if s == [] then []
    else
      assert s == [s[0]] + s[1..];
      var r := Insert(le, s[0], Sort(le, s[1..]));
      assert |multiset(r)| == |multiset(s)|;
      r
  }

  lemma {:induction false} InsertKeepsSorted<T(!new)>(le: (T, T) -> bool, x: T, s: seq<T>)
    requires TotalOrder(le) && SortedBy(le, s)
    ensures SortedBy(le, Insert(le, x, s))
  {
    if s != [] && !le(x, s[0]) {
      InsertKeepsSorted(le, x, s[1..]);
      var r := Insert(le, x, s[1..]);
      forall y | y in r ensures le(s[0], y) {
        assert y in multiset(r);
        if y != x { assert y in s[1..]; }
      }
    }
  }

  lemma {:induction false} SortSorts<T(!new)>(le: (T, T) -> bool, s: seq<T>)
    requires TotalOrder(le)
    ensures SortedBy(le, Sort(le, s))
  {
    if s != [] {
      SortSorts(le, s[1..]);
      InsertKeepsSorted(le, s[0], Sort(le, s[1..]));
    }
  }

  /** A sorted list is determined by its elements. */
  lemma {:induction false} SortedListsAgree<T(!new)>(le: (T, T) -> bool, a: seq<T>, b: seq<T>)
    requires TotalOrder(le) && SortedBy(le, a) && SortedBy(le, b)
    requires multiset(a) == multiset(b)
    ensures a == b
  {
    hide TotalOrder, SortedBy;
    assert |multiset(a)| == |multiset(b)|;
    if a != [] {
      assert a[0] in multiset(b) && b[0] in multiset(a);
      FirstsAgree(le, a, b);
      TailSorted(le, a);
      TailSorted(le, b);
      assert multiset(a[1..]) == multiset(b[1..]);
      SortedListsAgree(le, a[1..], b[1..]);
      assert a == [a[0]] + a[1..] && b == [b[0]] + b[1..];
    }
  }

  lemma FirstsAgree<T(!new)>(le: (T, T) -> bool, a: seq<T>, b: seq<T>)
    requires TotalOrder(le) && SortedBy(le, a) && SortedBy(le, b)
    requires a != [] && b != [] && a[0] in b && b[0] in a
    ensures a[0] == b[0]
  {
    var i :| 0 <= i < |a| && a[i] == b[0];
    var j :| 0 <= j < |b| && b[j] == a[0];
    assert le(a[0], a[i]) && le(b[0], b[j]);
  }

  lemma TailSorted<T>(le: (T, T) -> bool, a: seq<T>)
    requires SortedBy(le, a) && a != []
    ensures SortedBy(le, a[1..]) && multiset(a[1..]) == multiset(a) - multiset{a[0]}
  {
    assert a == [a[0]] + a[1..];
  }

  lemma SortDependsOnMultiset<T(!new)>(le: (T, T) -> bool, a: seq<T>, b: seq<T>)
    requires TotalOrder(le)
    ensures multiset(a) == multiset(b) <==> Sort(le, a) == Sort(le, b)
  {
    SortSorts(le, a);
    SortSorts(le, b);
    if multiset(a) == multiset(b) {
      SortedListsAgree(le, Sort(le, a), Sort(le, b));
    }
  }

  lemma SortOfSorted<T(!new)>(le: (T, T) -> bool, a: seq<T>)
    requires TotalOrder(le) && SortedBy(le, a)
    ensures Sort(le, a) == a
  {
    SortSorts(le, a);
    SortedListsAgree(le, Sort(le, a), a);
  }

  lemma SameElements<T>(s: seq<T>, t: seq<T>)
    requires multiset(s) == multiset(t)
    ensures forall x :: x in s <==> x in t
  {
    forall x ensures x in s <==> x in t { assert x in multiset(s) <==> x in multiset(t); }
  }

  /** Of two different elements the smaller stands first in the sorted list. */
  lemma SortedPlaces<T(!new)>(le: (T, T) -> bool, s: seq<T>, x: T, y: T) returns (i: nat, j: nat)
    requires TotalOrder(le) && x in s && y in s && x != y && le(x, y)
    ensures i < j < |Sort(le, s)| && Sort(le, s)[i] == x && Sort(le, s)[j] == y
  {
    hide Sort;
    SortSorts(le, s);
    SameElements(Sort(le, s), s);
    i :| 0 <= i < |Sort(le, s)| && Sort(le, s)[i] == x;
    j :| 0 <= j < |Sort(le, s)| && Sort(le, s)[j] == y;
  }

  lemma SomeElement<T>(s: set<T>) returns (x: T)
    requires s != {}
    ensures x in s
  {
    x :| x in s;
  }

  // ---- Lexicographic order ----

  predicate LexLe(a: seq<int>, b: seq<int>) {
    a == [] || (b != [] && (a[0] < b[0] || (a[0] == b[0] && LexLe(a[1..], b[1..]))))
  }

  lemma {:induction false} LexTotal(a: seq<int>, b: seq<int>)
    ensures LexLe(a, b) || LexLe(b, a)
  {
    if a != [] && b != [] && a[0] == b[0] { LexTotal(a[1..], b[1..]); }
  }

  lemma {:induction false} LexAntisymmetric(a: seq<int>, b: seq<int>)
    requires LexLe(a, b) && LexLe(b, a)
    ensures a == b
  {
    if a != [] {
      LexAntisymmetric(a[1..], b[1..]);
      assert a == [a[0]] + a[1..] && b == [b[0]] + b[1..];
    }
  }

  lemma {:induction false} LexTransitive(a: seq<int>, b: seq<int>, c: seq<int>)
    requires LexLe(a, b) && LexLe(b, c)
    ensures LexLe(a, c)
  {
    if a != [] && a[0] == b[0] && b[0] == c[0] { LexTransitive(a[1..], b[1..], c[1..]); }
  }

  /** At the first place where they differ, `a` has the smaller number. */
  ghost predicate SmallerAt(a: seq<int>, b: seq<int>) {
    exists i :: 0 <= i < |a| && i < |b| && a[..i] == b[..i] && a[i] < b[i]
  }

  /** What the recursion decides: a prefix comes first, and otherwise the first difference counts. */
  lemma {:induction false} LexLeMeans(a: seq<int>, b: seq<int>)
    ensures LexLe(a, b) <==> a <= b || SmallerAt(a, b)
  {
    hide SmallerAt;
    if a == [] || b == [] {
      NotBelow(a, b);
    } else if a[0] == b[0] {
      LexLeMeans(a[1..], b[1..]);
      SameFirst(a, b);
    } else {
      DifferentFirst(a, b);
    }
  }

  lemma NotBelow(a: seq<int>, b: seq<int>)
    requires a == [] || b == []
    ensures !SmallerAt(a, b)
  {
  }

  lemma SameFirst(a: seq<int>, b: seq<int>)
    requires a != [] && b != [] && a[0] == b[0]
    ensures a <= b <==> a[1..] <= b[1..]
    ensures SmallerAt(a, b) <==> SmallerAt(a[1..], b[1..])
  {
    var c, d := a[1..], b[1..];
    assert a == [a[0]] + c && b == [b[0]] + d;
    if i :| 0 <= i < |c| && i < |d| && c[..i] == d[..i] && c[i] < d[i] {
      assert a[..i + 1] == [a[0]] + c[..i] && b[..i + 1] == [b[0]] + d[..i];
      assert a[i + 1] < b[i + 1];
    }
    if i :| 0 <= i < |a| && i < |b| && a[..i] == b[..i] && a[i] < b[i] {
      assert c[..i - 1] == a[..i][1..] && d[..i - 1] == b[..i][1..];
      assert c[i - 1] < d[i - 1];
    }
  }

  lemma DifferentFirst(a: seq<int>, b: seq<int>)
    requires a != [] && b != [] && a[0] != b[0]
    ensures !(a <= b) && (SmallerAt(a, b) <==> a[0] < b[0])
  {
    if a[0] < b[0] { assert a[..0] == b[..0]; }
    forall i | 0 < i < |a| && i < |b| ensures a[..i] != b[..i] { assert a[..i][0] != b[..i][0]; }
  }

  /** Comparing images under an injective encoding is a total order. */
  lemma EncodedOrderIsTotal<T(!new)>(enc: T -> seq<int>, le: (T, T) -> bool)
    requires forall x, y :: enc(x) == enc(y) ==> x == y
    requires forall x, y :: le(x, y) <==> LexLe(enc(x), enc(y))
    ensures TotalOrder(le)
  {
    forall x, y ensures le(x, y) || le(y, x) { LexTotal(enc(x), enc(y)); }
    forall x, y | le(x, y) && le(y, x) ensures x == y { LexAntisymmetric(enc(x), enc(y)); }
    forall x, y, z | le(x, y) && le(y, z) ensures le(x, z) { LexTransitive(enc(x), enc(y), enc(z)); }
  }

  // ---- The two string orders: Python's, by code points, and ECMAScript's, by UTF-16 code units ----

  function CodePoints(s: string): (r: seq<int>) {
    seq(|s|, i requires 0 <= i < |s| => s[i] as int)
  }

  predicate CodePointLe(s: string, t: string) { LexLe(CodePoints(s), CodePoints(t)) }

  lemma CodePointsInjective(s: string, t: string)
    requires CodePoints(s) == CodePoints(t)
    ensures s == t
  {
    assert |CodePoints(s)| == |s| && |CodePoints(t)| == |t|;
    forall i | 0 <= i < |s| ensures s[i] == t[i] {
      assert CodePoints(s)[i] == CodePoints(t)[i];
    }
  }

  /** Python's order: a prefix comes first, and otherwise the first character that differs counts. */
  lemma CodePointLeMeans(s: string, t: string)
    ensures CodePointLe(s, t) <==> s <= t || exists i :: 0 <= i < |s| && i < |t| && s[..i] == t[..i] && s[i] < t[i]
  {
    var a, b := CodePoints(s), CodePoints(t);
    LexLeMeans(a, b);
    assert |a| == |s| && |b| == |t|;
    forall i | 0 <= i <= |s| && i <= |t| ensures s[..i] == t[..i] <==> a[..i] == b[..i] {
      assert a[..i] == CodePoints(s[..i]) && b[..i] == CodePoints(t[..i]);
      if a[..i] == b[..i] { CodePointsInjective(s[..i], t[..i]); }
    }
    assert s <= t <==> |s| <= |t| && s[..|s|] == t[..|s|];
    assert a <= b <==> |a| <= |b| && a[..|a|] == b[..|a|];
  }

  lemma CodePointOrderIsTotal()
    ensures TotalOrder(CodePointLe)
  {
    forall s, t | CodePoints(s) == CodePoints(t) ensures s == t { CodePointsInjective(s, t); }
    EncodedOrderIsTotal(CodePoints, CodePointLe);
  }

  /** The UTF-16 code units of one scalar value: a surrogate pair above U+FFFF. */
  function Utf16Units(c: char): (r: seq<int>)
    ensures 1 <= |r| <= 2
  {
    var cp := c as int;
    if cp < 0x10000 then [cp]
    else [0xD800 + (cp - 0x10000) / 0x400, 0xDC00 + (cp - 0x10000) % 0x400]
  }

  function Utf16(s: string): (r: seq<int>) {
    if s == [] then [] else Utf16Units(s[0]) + Utf16(s[1..])
  }

  predicate Utf16Le(s: string, t: string) { LexLe(Utf16(s), Utf16(t)) }

  /** A unit stands for itself, a surrogate pair for the scalar value it decodes to. */
  lemma Utf16UnitsDecode(c: char)
    ensures var u := Utf16Units(c);
      if (c as int) < 0x10000 then u == [c as int]
      else
        |u| == 2 && 0xD800 <= u[0] < 0xDC00 <= u[1] < 0xE000 &&
        c as int == 0x10000 + (u[0] - 0xD800) * 0x400 + (u[1] - 0xDC00)
  {
  }

  lemma {:induction false} Utf16Append(s: string, t: string)
    ensures Utf16(s + t) == Utf16(s) + Utf16(t)
  {
    if s == "" {
      assert s + t == t;
    } else {
      assert (s + t)[1..] == s[1..] + t;
      Utf16Append(s[1..], t);
    }
  }

  /** ECMAScript's order: the first UTF-16 code unit that differs counts. */
  lemma Utf16LeMeans(s: string, t: string)
    ensures Utf16Le(s, t) <==> Utf16(s) <= Utf16(t) || SmallerAt(Utf16(s), Utf16(t))
  {
    LexLeMeans(Utf16(s), Utf16(t));
  }

  lemma Utf16UnitsPrefixFree(c: char, d: char, x: seq<int>, y: seq<int>)
    requires Utf16Units(c) + x == Utf16Units(d) + y
    ensures c == d && x == y
  {
    var a, b := Utf16Units(c) + x, Utf16Units(d) + y;
    assert a[0] == b[0];
    assert c as int < 0x10000 <==> d as int < 0x10000;
    if c as int >= 0x10000 {
      assert a[1] == b[1];
    }
    assert c as int == d as int;
    assert x == a[|Utf16Units(c)|..] && y == b[|Utf16Units(d)|..];
  }

  lemma {:induction false} Utf16Injective(s: string, t: string)
    requires Utf16(s) == Utf16(t)
    ensures s == t
  {
    if s != [] && t != [] {
      Utf16UnitsPrefixFree(s[0], t[0], Utf16(s[1..]), Utf16(t[1..]));
      Utf16Injective(s[1..], t[1..]);
      assert s == [s[0]] + s[1..] && t == [t[0]] + t[1..];
    }
  }

  lemma Utf16OrderIsTotal()
    ensures TotalOrder(Utf16Le)
  {
    forall s, t | Utf16(s) == Utf16(t) ensures s == t { Utf16Injective(s, t); }
    EncodedOrderIsTotal(Utf16, Utf16Le);
  }
}

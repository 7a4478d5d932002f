/** json.dumps with sorted keys; how Python writes a number is a parameter. */
module PythonJson {
  import opened Sorting
  import opened CanonicalJson
  import opened StringEscapes

  /** What is asked of Python's number writer: words without separators, different for
      different numbers. */
  ghost predicate NumbersLawful<N(!new)>(numText: N -> string) {
    && (forall n :: NumberText(numText(n)))
    && (forall m, n :: numText(m) == numText(n) ==> m == n)
  }

  /** ensure_ascii=False: live_attestation.canonical_json, fleet_crypto.canonical. */
  function UnicodeStyle<N>(numText: N -> string): (st: Style<N>) {
    Style(EscapeControls, numText, CodePointLe)
  }

  /** ensure_ascii=True: evidence_repository.canon. */
  function AsciiStyle<N>(numText: N -> string): (st: Style<N>) {
    Style(EscapeNonAscii, numText, CodePointLe)
  }

  /** Both print members in the ascending order of their names' characters. */
  lemma MembersInCharacterOrder<N(!new)>(st: Style<N>, ms: seq<Member<N>>, x: string, y: string)
    returns (a: string, b: string, c: string)
    requires st == UnicodeStyle(st.numText) || st == AsciiStyle(st.numText)
    requires x in Names(ms) && y in Names(ms) && x != y
    requires x <= y || exists i :: 0 <= i < |x| && i < |y| && x[..i] == y[..i] && x[i] < y[i]
    ensures Canon(st, Obj(ms)) == a + MemberText(st, ms, x) + b + MemberText(st, ms, y) + c
  {
    CodePointOrderIsTotal();
    CodePointLeMeans(x, y);
    a, b, c := SmallerNameFirst(st, ms, x, y);
  }

  lemma StylesAreLawful<N(!new)>(numText: N -> string)
    requires NumbersLawful(numText)
    ensures Lawful(UnicodeStyle(numText)) && Lawful(AsciiStyle(numText))
  {
    CodePointOrderIsTotal();
    EscapeControlsIsPrefixCode();
    EscapeNonAsciiIsPrefixCode();
  }
}

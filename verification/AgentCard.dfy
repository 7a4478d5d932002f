/** Agent Card preparation before canonicalization. */
module AgentCard {
  import opened Wrappers
  import opened CanonicalJson
  import opened Dictionaries
  import opened Rfc8785

  type Field = Json<EsNumber>
  type Object = Dict<EsNumber>

  // ---- _clean_generic ----

  /** None is the _DROP marker. */
  function CleanGeneric(v: Field): (r: Option<Field>)
    decreases v
  {
    match v
    case Arr(xs) => Some(Arr(CleanItems(xs)))
    case Obj(ms) => Some(Obj(CleanMembers(ms)))
    case _ => Some(v)
  }

  function CleanItems(xs: seq<Field>): (r: seq<Field>)
    decreases xs
  {
    if xs == [] then []
    else
      match CleanGeneric(xs[0])
      case None => CleanItems(xs[1..])
      case Some(x) => [x] + CleanItems(xs[1..])
  }

  function CleanMembers(ms: Object): (r: Object)
    decreases ms
  {
    if ms == [] then []
    else
      match CleanGeneric(ms[0].value)
      case None => CleanMembers(ms[1..])
      case Some(x) => [Member(ms[0].key, x)] + CleanMembers(ms[1..])
  }

  /** Nothing ever produces the marker: generic cleaning copies. */
  lemma {:induction false} CleanGenericCopies(v: Field)
    ensures CleanGeneric(v) == Some(v)
    decreases v, 1
  {
    match v {
      case Arr(xs) => CleanItemsCopies(xs);
      case Obj(ms) => CleanMembersCopies(ms);
      case _ =>
    }
  }

  lemma {:induction false} CleanItemsCopies(xs: seq<Field>)
    ensures CleanItems(xs) == xs
    decreases xs, 0
  {
    if xs != [] {
      CleanGenericCopies(xs[0]);
      CleanItemsCopies(xs[1..]);
    }
  }

  lemma {:induction false} CleanMembersCopies(ms: Object)
    ensures CleanMembers(ms) == ms
    decreases ms, 0
  {
    if ms != [] {
      CleanGenericCopies(ms[0].value);
      CleanMembersCopies(ms[1..]);
    }
  }

  // ---- Rules for single members ----

  /** What becomes of one member. */
  datatype Fate = Drop | Keep(value: Field) | Fail

  function KeepClean(v: Field): (f: Fate) {
    match CleanGeneric(v)
    case None => Drop
    case Some(x) => Keep(x)
  }

  predicate EmptyContainer(v: Field) { v == Arr([]) || v == Obj([]) }

  predicate DefaultScalar(v: Field) { v == Str("") || v == Num(Zero) || v == Bool(false) || v == Null }

  function UnlessDefault(v: Field): (f: Fate) {
    if EmptyContainer(v) || DefaultScalar(v) then Drop else KeepClean(v)
  }

  type Rule = (string, Field) -> Fate

  function ProviderRule(k: string, v: Field): (f: Fate) {
    if k in {"url", "organization"} then KeepClean(v) else UnlessDefault(v)
  }

  function InterfaceRule(k: string, v: Field): (f: Fate) {
    if k in {"url", "protocolBinding", "protocolVersion", "tenant"} then KeepClean(v) else UnlessDefault(v)
  }

  function SkillRule(k: string, v: Field): (f: Fate) {
    if k in {"id", "name", "description", "tags"} then KeepClean(v) else UnlessDefault(v)
  }

  function ExtensionRule(k: string, v: Field): (f: Fate) {
    if k == "params" then (if v.Obj? && v.members != [] then KeepClean(v) else Drop)
    else UnlessDefault(v)
  }

  function CapabilityRule(k: string, v: Field): (f: Fate) {
    if k in {"streaming", "pushNotifications", "extendedAgentCard"} then KeepClean(v)
    else if k == "extensions" then
      (if v.Arr? && v.items != [] then Keep(Arr(CleanObjects(ExtensionRule, v.items))) else Drop)
    else UnlessDefault(v)
  }

  /** The six values that count as left out. */
  ghost predicate Omissible(v: Field) {
    v == Null || v == Bool(false) || v == Num(Zero) || v == Str("") || v == Arr([]) || v == Obj([])
  }

  /** Which members of a nested object survive, and that they survive as they are. */
  lemma NestedRulesMean(k: string, v: Field)
    ensures ProviderRule(k, v) == if k == "url" || k == "organization" || !Omissible(v) then Keep(v) else Drop
    ensures InterfaceRule(k, v) ==
      if k in {"url", "protocolBinding", "protocolVersion", "tenant"} || !Omissible(v) then Keep(v) else Drop
    ensures SkillRule(k, v) == if k in {"id", "name", "description", "tags"} || !Omissible(v) then Keep(v) else Drop
    ensures ExtensionRule(k, v) ==
      if (if k == "params" then v.Obj? && v != Obj([]) else !Omissible(v)) then Keep(v) else Drop
    ensures k == "extensions" ==>
      CapabilityRule(k, v) == if v.Arr? && v.items != [] then Keep(Arr(CleanObjects(ExtensionRule, v.items))) else Drop
    ensures k != "extensions" ==>
      CapabilityRule(k, v) ==
      if k in {"streaming", "pushNotifications", "extendedAgentCard"} || !Omissible(v) then Keep(v) else Drop
  {
    CleanGenericCopies(v);
  }

  /** A dictionary filled member by member; a failing member is dropped here and reported by Fails. */
  function Filtered(rule: Rule, d: Object): (r: Object) {
    if d == [] then []
    else
      var n := |d| - 1;
      match rule(d[n].key, d[n].value)
      case Keep(v) => Filtered(rule, d[..n]) + [Member(d[n].key, v)]
      case _ => Filtered(rule, d[..n])
  }

  predicate Fails(rule: Rule, d: Object) { exists i :: 0 <= i < |d| && rule(d[i].key, d[i].value) == Fail }

  /** Objects of a list cleaned by a rule, other items as they are. */
  function CleanObjects(rule: Rule, xs: seq<Field>): (r: seq<Field>)
    ensures |r| == |xs|
  {
    if xs == [] then []
    else [if xs[0].Obj? then Obj(Filtered(rule, xs[0].members)) else xs[0]] + CleanObjects(rule, xs[1..])
  }

  /** What `for x in (v or [])` runs over; None where v cannot be iterated. */
  function Iterated(v: Field): (r: Option<seq<Field>>) {
    match v
    case Arr(xs) => Some(xs)
    case Str(s) => Some(Characters(s))
    case Obj(ms) => Some(Keys(ms))
    case _ => if DefaultScalar(v) then Some([]) else None
  }

  function Characters(s: string): (r: seq<Field>)
    ensures forall i :: 0 <= i < |r| ==> r[i].Str?
  {
    if s == "" then [] else [Str([s[0]])] + Characters(s[1..])
  }

  function Keys(ms: Object): (r: seq<Field>)
    ensures forall i :: 0 <= i < |r| ==> r[i].Str?
  {
    if ms == [] then [] else [Str(ms[0].key)] + Keys(ms[1..])
  }

  function ListRule(rule: Rule, v: Field): (f: Fate) {
    match Iterated(v)
    case None => Fail
    case Some(xs) => Keep(Arr(CleanObjects(rule, xs)))
  }

  /** _clean_required_top */
  function RequiredTop(k: string, v: Field): (f: Fate) {
    if k == "capabilities" then Keep(Obj(Filtered(CapabilityRule, if v.Obj? then v.members else [])))
    else if k == "supportedInterfaces" then ListRule(InterfaceRule, v)
    else if k == "skills" then ListRule(SkillRule, v)
    else KeepClean(v)
  }

  const REQUIRED_TOP: set<string> := {
    "name", "description", "supportedInterfaces", "version", "capabilities",
    "defaultInputModes", "defaultOutputModes", "skills"}

  function TopRule(k: string, v: Field): (f: Fate) {
    if k == "signatures" then Drop
    else if k in REQUIRED_TOP then RequiredTop(k, v)
    else if k in {"documentationUrl", "iconUrl"} then KeepClean(v)
    else if k == "provider"
      then (if v.Obj? && v.members != [] then Keep(Obj(Filtered(ProviderRule, v.members))) else Drop)
    else if k == "securitySchemes" then (if v.Obj? && v.members != [] then KeepClean(v) else Drop)
    else if k == "securityRequirements" then (if v.Arr? && v.items != [] then KeepClean(v) else Drop)
    else UnlessDefault(v)
  }

  /** prepare_agent_card up to its last statement; None where it raises. */
  function Prepare(card: Object): (r: Option<Object>) {
    if Fails(TopRule, card) then None else Some(Filtered(TopRule, card))
  }

  /** validate_i_json: no number is refused. Which integers are is the parameter's affair. */
  predicate Interoperable(safe: EsNumber -> bool, v: Field)
    decreases v
  {
    match v
    case Num(n) => safe(n)
    case Arr(xs) => forall i :: 0 <= i < |xs| ==> Interoperable(safe, xs[i])
    case Obj(ms) => forall i :: 0 <= i < |ms| ==> Interoperable(safe, ms[i].value)
    case _ => true
  }

  /** The filling loop shared by prepare_agent_card and the _clean functions. */
  method FilterDict(rule: Rule, d: Object) returns (r: Option<Object>)
    requires ValidDict(d)
    ensures r == if Fails(rule, d) then None else Some(Filtered(rule, d))
  {
    hide Names, Put, ValidDict;
    var out: Object := [];
    for i := 0 to |d|
      invariant out == Filtered(rule, d[..i])
      invariant forall j :: 0 <= j < i ==> rule(d[j].key, d[j].value) != Fail
    {
      assert d[..i + 1][..i] == d[..i];
      match rule(d[i].key, d[i].value) {
        case Fail => return None;
        case Drop =>
        case Keep(v) =>
          KeyIsNew(rule, d, i);
          PutNew(out, d[i].key, v);
          out := Put(out, d[i].key, v);
      }
    }
    assert d[..|d|] == d;
    r := Some(out);
  }

  /** The whole of prepare_agent_card: what was prepared is checked once more. */
  method PrepareAgentCard(card: Object, safe: EsNumber -> bool) returns (r: Option<Object>)
    requires ValidDict(card)
    ensures r.Some? <==> Prepare(card).Some? && Interoperable(safe, Obj(Prepare(card).value))
    ensures r.Some? ==> r == Prepare(card)
    ensures Interoperable(safe, Obj(card)) ==> r == Prepare(card)
  {
    r := FilterDict(TopRule, card);
    PreparedIsInteroperable(safe, card);
    if r.Some? && !Interoperable(safe, Obj(r.value)) { r := None; }
  }

  // ---- Preparation brings in no number ----

  ghost predicate Passes(safe: EsNumber -> bool, rule: Rule) {
    forall k, v :: Interoperable(safe, v) && rule(k, v).Keep? ==> Interoperable(safe, rule(k, v).value)
  }

  lemma {:induction false} FilteredPasses(safe: EsNumber -> bool, rule: Rule, d: Object)
    requires Passes(safe, rule) && Interoperable(safe, Obj(d))
    ensures Interoperable(safe, Obj(Filtered(rule, d)))
  {
    if d != [] {
      var n := |d| - 1;
      assert Interoperable(safe, d[n].value);
      FilteredPasses(safe, rule, d[..n]);
    }
  }

  lemma {:induction false} CleanObjectsPass(safe: EsNumber -> bool, rule: Rule, xs: seq<Field>)
    requires Passes(safe, rule) && Interoperable(safe, Arr(xs))
    ensures Interoperable(safe, Arr(CleanObjects(rule, xs)))
  {
    if xs != [] {
      assert Interoperable(safe, xs[0]);
      CleanObjectsPass(safe, rule, xs[1..]);
      if xs[0].Obj? { FilteredPasses(safe, rule, xs[0].members); }
      var ys := CleanObjects(rule, xs[1..]);
      assert forall i :: 0 < i < |xs| ==> CleanObjects(rule, xs)[i] == ys[i - 1];
    }
  }

  lemma SimpleRulesPass(safe: EsNumber -> bool)
    ensures Passes(safe, ProviderRule) && Passes(safe, InterfaceRule) && Passes(safe, SkillRule)
    ensures Passes(safe, ExtensionRule)
  {
    forall v: Field ensures KeepClean(v) == Keep(v) { CleanGenericCopies(v); }
  }

  lemma CapabilityRulePasses(safe: EsNumber -> bool)
    ensures Passes(safe, CapabilityRule)
  {
    SimpleRulesPass(safe);
    forall k: string, v: Field | Interoperable(safe, v) && CapabilityRule(k, v).Keep?
      ensures Interoperable(safe, CapabilityRule(k, v).value)
    {
      CleanGenericCopies(v);
      if v.Arr? { CleanObjectsPass(safe, ExtensionRule, v.items); }
    }
  }

  lemma ListRulePasses(safe: EsNumber -> bool, rule: Rule, v: Field)
    requires Passes(safe, rule) && Interoperable(safe, v)
    ensures ListRule(rule, v).Keep? ==> Interoperable(safe, ListRule(rule, v).value)
  {
    if Iterated(v).Some? { CleanObjectsPass(safe, rule, Iterated(v).value); }
  }

  lemma TopMemberPasses(safe: EsNumber -> bool, k: string, v: Field)
    requires Passes(safe, ProviderRule) && Passes(safe, InterfaceRule)
    requires Passes(safe, SkillRule) && Passes(safe, CapabilityRule) && Interoperable(safe, v)
    ensures TopRule(k, v).Keep? ==> Interoperable(safe, TopRule(k, v).value)
  {
    hide Passes, ListRule, Filtered, ProviderRule, InterfaceRule, SkillRule, CapabilityRule, Interoperable;
    CleanGenericCopies(v);
    ListRulePasses(safe, InterfaceRule, v);
    ListRulePasses(safe, SkillRule, v);
    NoMembersPass(safe);
    FilteredPasses(safe, CapabilityRule, if v.Obj? then v.members else []);
    if v.Obj? { FilteredPasses(safe, ProviderRule, v.members); }
  }

  lemma NoMembersPass(safe: EsNumber -> bool)
    ensures Interoperable(safe, Obj([]))
  {
  }

  /** So a card that passed the check when it was loaded passes it again. */
  lemma PreparedIsInteroperable(safe: EsNumber -> bool, card: Object)
    ensures Interoperable(safe, Obj(card)) ==> Interoperable(safe, Obj(Filtered(TopRule, card)))
  {
    SimpleRulesPass(safe);
    CapabilityRulePasses(safe);
    forall k: string, v: Field | Interoperable(safe, v) && TopRule(k, v).Keep?
      ensures Interoperable(safe, TopRule(k, v).value)
    {
      TopMemberPasses(safe, k, v);
    }
    if Interoperable(safe, Obj(card)) { FilteredPasses(safe, TopRule, card); }
  }

  lemma {:induction false} FilteredNames(rule: Rule, d: Object)
    ensures forall n :: n in Names(Filtered(rule, d)) ==> n in Names(d)
  {
    if d != [] {
      var k := |d| - 1;
      NamesSnoc(d[..k], d[k]);
      assert d == d[..k] + [d[k]];
      FilteredNames(rule, d[..k]);
      if rule(d[k].key, d[k].value).Keep? {
        NamesSnoc(Filtered(rule, d[..k]), Member(d[k].key, rule(d[k].key, d[k].value).value));
      }
    }
  }

  lemma {:induction false} NamesSnoc(d: Object, m: Member<EsNumber>)
    ensures Names(d + [m]) == Names(d) + [m.key]
  {
    if d != [] {
      assert (d + [m])[1..] == d[1..] + [m];
      NamesSnoc(d[1..], m);
    }
  }

  lemma KeyIsNew(rule: Rule, d: Object, i: nat)
    requires ValidDict(d) && i < |d|
    ensures d[i].key !in Names(Filtered(rule, d[..i]))
  {
    FilteredNames(rule, d[..i]);
    assert forall j :: 0 <= j < i ==> Names(d[..i])[j] == Names(d)[j] != Names(d)[i];
  }

  lemma {:induction false} PutNew(d: Object, k: string, v: Field)
    requires k !in Names(d)
    ensures Put(d, k, v) == d + [Member(k, v)]
  {
    if d != [] {
      assert Names(d) == [d[0].key] + Names(d[1..]);
      PutNew(d[1..], k, v);
    }
  }

  // ---- What a prepared card holds ----

  ghost predicate Survives(required: set<string>, d: Object, n: string) {
    n in Names(d) && (n in required || !Omissible(Get(d, n)))
  }

  /** The object `r` is `d` without its omissible members, unless they are required. */
  ghost predicate Trimmed(required: set<string>, d: Object, r: Object) {
    forall n :: (n in Names(r) <==> Survives(required, d, n)) && (n in Names(r) ==> Get(r, n) == Get(d, n))
  }

  lemma FilteredTrims(rule: Rule, required: set<string>, d: Object)
    requires ValidDict(d)
    requires forall n :: n in Names(d) ==>
      rule(n, Get(d, n)) == if n in required || !Omissible(Get(d, n)) then Keep(Get(d, n)) else Drop
    ensures Trimmed(required, d, Filtered(rule, d))
  {
    hide Names, Get, Omissible, Filtered;
    forall n ensures n in Names(Filtered(rule, d)) ==> n in Names(d) { FilteredNames(rule, d); }
    forall n | n in Names(d)
      ensures n in Names(Filtered(rule, d)) <==> Survives(required, d, n)
      ensures n in Names(Filtered(rule, d)) ==> Get(Filtered(rule, d), n) == Get(d, n)
    {
      FilteredHas(rule, d, n);
    }
  }

  /** The provider, an interface and a skill lose their omissible members, but never these. */
  lemma NestedObjectsTrimmed(d: Object)
    requires ValidDict(d)
    ensures Trimmed({"url", "organization"}, d, Filtered(ProviderRule, d))
    ensures Trimmed({"url", "protocolBinding", "protocolVersion", "tenant"}, d, Filtered(InterfaceRule, d))
    ensures Trimmed({"id", "name", "description", "tags"}, d, Filtered(SkillRule, d))
  {
    hide Names, Get, Omissible, Filtered, ProviderRule, InterfaceRule, SkillRule, Trimmed;
    forall n { NestedRulesMean(n, Get(d, n)); }
    FilteredTrims(ProviderRule, {"url", "organization"}, d);
    FilteredTrims(InterfaceRule, {"url", "protocolBinding", "protocolVersion", "tenant"}, d);
    FilteredTrims(SkillRule, {"id", "name", "description", "tags"}, d);
  }

  /** Items of a cleaned list: objects are filtered, anything else stays. */
  lemma {:induction false} CleanObjectsMean(rule: Rule, xs: seq<Field>, i: nat)
    requires i < |xs|
    ensures CleanObjects(rule, xs)[i] == if xs[i].Obj? then Obj(Filtered(rule, xs[i].members)) else xs[i]
  {
    hide Filtered;
    if i > 0 { CleanObjectsMean(rule, xs[1..], i - 1); }
  }

  /** Which members of a card survive preparation, and as what. */
  lemma PreparedMember(card: Object, k: string)
    requires ValidDict(card) && Prepare(card).Some?
    ensures k !in Names(card) ==> k !in Names(Prepare(card).value)
    ensures k in Names(card) ==>
      var r, v := Prepare(card).value, Get(card, k);
      && (k == "signatures" ==> k !in Names(r))
      && (k in COPIED ==> k in Names(r) && Get(r, k) == v)
      && (k in {"capabilities", "supportedInterfaces", "skills"} ==> k in Names(r))
      && (k == "capabilities" ==> Get(r, k) == Obj(Filtered(CapabilityRule, if v.Obj? then v.members else [])))
      && (k == "supportedInterfaces" ==>
           Iterated(v).Some? && Get(r, k) == Arr(CleanObjects(InterfaceRule, Iterated(v).value)))
      && (k == "skills" ==> Iterated(v).Some? && Get(r, k) == Arr(CleanObjects(SkillRule, Iterated(v).value)))
      && (k == "provider" ==>
           (k in Names(r) <==> v.Obj? && v.members != []) &&
           (k in Names(r) ==> Get(r, k) == Obj(Filtered(ProviderRule, v.members))))
      && (k == "securitySchemes" ==>
           (k in Names(r) <==> v.Obj? && v.members != []) && (k in Names(r) ==> Get(r, k) == v))
      && (k == "securityRequirements" ==>
           (k in Names(r) <==> v.Arr? && v.items != []) && (k in Names(r) ==> Get(r, k) == v))
      && (k !in KNOWN ==> (k in Names(r) <==> !Omissible(v)) && (k in Names(r) ==> Get(r, k) == v))
  {
    hide Names, Get, Filtered, CleanObjects, ProviderRule, InterfaceRule, SkillRule, CapabilityRule, Fails;
    FilteredNames(TopRule, card);
    if k in Names(card) {
      FilteredHas(TopRule, card, k);
      NeverFails(card, k);
      CleanGenericCopies(Get(card, k));
    }
  }

  lemma IteratesAsPython(v: Field)
    ensures Iterated(v) == None <==> v == Bool(true) || (v.Num? && v != Num(Zero))
    ensures v.Arr? ==> Iterated(v) == Some(v.items)
    ensures v == Null || v == Bool(false) || v == Num(Zero) ==> Iterated(v) == Some([])
    ensures v.Str? ==> Iterated(v).Some? && Each(Iterated(v).value, seq(|v.s|, i requires 0 <= i < |v.s| => [v.s[i]]))
    ensures v.Obj? ==> Iterated(v).Some? && Each(Iterated(v).value, Names(v.members))
  {
    hide Characters, Keys;
    if v.Str? { EachCharacter(v.s); }
    if v.Obj? { EachKey(v.members); }
  }

  /** The items are these strings. */
  ghost predicate Each(items: seq<Field>, texts: seq<string>) {
    |items| == |texts| && forall i :: 0 <= i < |items| ==> items[i] == Str(texts[i])
  }

  lemma {:induction false} EachCharacter(s: string)
    ensures Each(Characters(s), seq(|s|, i requires 0 <= i < |s| => [s[i]]))
  {
    if s != "" { EachCharacter(s[1..]); }
  }

  lemma {:induction false} EachKey(ms: Object)
    ensures Each(Keys(ms), Names(ms))
  {
    if ms != [] { EachKey(ms[1..]); }
  }

  const COPIED: set<string> := {
    "name", "description", "version", "defaultInputModes", "defaultOutputModes", "documentationUrl", "iconUrl"}

  const KNOWN: set<string> := COPIED + {
    "signatures", "capabilities", "supportedInterfaces", "skills", "provider", "securitySchemes",
    "securityRequirements"}

  lemma NeverFails(card: Object, k: string)
    requires ValidDict(card) && !Fails(TopRule, card) && k in Names(card)
    ensures TopRule(k, Get(card, k)) != Fail
  {
    hide TopRule, Names, Get;
    var i :| 0 <= i < |card| && card[i].key == k && card[i].value == Lookup(card, k);
    MemberGet(card, i);
  }

  /** Preparation raises exactly when interfaces or skills are something that cannot be run through. */
  lemma PrepareRaisesIff(card: Object)
    ensures Prepare(card) == None <==>
      exists i :: 0 <= i < |card| && card[i].key in {"supportedInterfaces", "skills"} &&
        (card[i].value == Bool(true) || (card[i].value.Num? && card[i].value != Num(Zero)))
  {
    hide Filtered, CleanObjects, ProviderRule, InterfaceRule, SkillRule, CapabilityRule, Characters, Keys;
    forall i | 0 <= i < |card|
      ensures TopRule(card[i].key, card[i].value) == Fail <==>
        card[i].key in {"supportedInterfaces", "skills"} &&
        (card[i].value == Bool(true) || (card[i].value.Num? && card[i].value != Num(Zero)))
    {
      CleanGenericCopies(card[i].value);
    }
  }

  // ---- Preparing twice ----

  /** The rule keeps whatever it has produced. */
  ghost predicate StableAt(rule: Rule, k: string, v: Field) {
    rule(k, v).Keep? ==> rule(k, rule(k, v).value) == rule(k, v)
  }

  ghost predicate Stable(rule: Rule) { forall k, v :: StableAt(rule, k, v) }

  lemma {:induction false} FilteredTwice(rule: Rule, d: Object)
    requires forall i :: 0 <= i < |d| ==> StableAt(rule, d[i].key, d[i].value)
    ensures Filtered(rule, Filtered(rule, d)) == Filtered(rule, d) && !Fails(rule, Filtered(rule, d))
  {
    if d != [] {
      var n := |d| - 1;
      var front := Filtered(rule, d[..n]);
      FilteredTwice(rule, d[..n]);
      assert StableAt(rule, d[n].key, d[n].value);
      if rule(d[n].key, d[n].value).Keep? {
        var m := Member(d[n].key, rule(d[n].key, d[n].value).value);
        assert (front + [m])[..|front|] == front;
      }
    }
  }

  lemma UnlessDefaultStable(v: Field)
    ensures UnlessDefault(v).Keep? ==> UnlessDefault(v) == Keep(v)
    ensures KeepClean(v) == Keep(v)
  {
    CleanGenericCopies(v);
  }

  lemma SimpleRulesStable()
    ensures Stable(ProviderRule) && Stable(InterfaceRule) && Stable(SkillRule) && Stable(ExtensionRule)
  {
    forall k: string, v: Field
      ensures StableAt(ProviderRule, k, v) && StableAt(InterfaceRule, k, v) && StableAt(SkillRule, k, v) &&
        StableAt(ExtensionRule, k, v)
    {
      UnlessDefaultStable(v);
    }
  }

  lemma {:induction false} CleanObjectsTwice(rule: Rule, xs: seq<Field>)
    requires Stable(rule)
    ensures CleanObjects(rule, CleanObjects(rule, xs)) == CleanObjects(rule, xs)
  {
    if xs != [] {
      CleanObjectsTwice(rule, xs[1..]);
      if xs[0].Obj? { FilteredTwice(rule, xs[0].members); }
    }
  }

  lemma CapabilityRuleStable()
    ensures Stable(CapabilityRule)
  {
    SimpleRulesStable();
    forall k: string, v: Field ensures StableAt(CapabilityRule, k, v) {
      UnlessDefaultStable(v);
      if v.Arr? { CleanObjectsTwice(ExtensionRule, v.items); }
    }
  }

  /** The provider is an object all of whose members are dropped. */
  predicate ProviderVanishes(v: Field) {
    v.Obj? && v.members != [] &&
    forall i :: 0 <= i < |v.members| ==>
      v.members[i].key !in {"url", "organization"} &&
        (EmptyContainer(v.members[i].value) || DefaultScalar(v.members[i].value))
  }

  lemma {:induction false} VanishesIff(ms: Object)
    ensures Filtered(ProviderRule, ms) == [] <==> forall i :: 0 <= i < |ms| ==>
      ms[i].key !in {"url", "organization"} && (EmptyContainer(ms[i].value) || DefaultScalar(ms[i].value))
  {
    if ms != [] {
      var n := |ms| - 1;
      VanishesIff(ms[..n]);
      UnlessDefaultStable(ms[n].value);
      assert forall i :: 0 <= i < n ==> ms[..n][i] == ms[i];
    }
  }

  /** Every top-level member is prepared once and for all, except a provider that vanishes: that
      one is kept as an empty object, which a second preparation drops. */
  lemma TopRuleStableIff(k: string, v: Field)
    ensures StableAt(TopRule, k, v) <==> !(k == "provider" && ProviderVanishes(v))
    ensures k == "provider" && ProviderVanishes(v) ==> TopRule(k, v) == Keep(Obj([]))
  {
    SimpleRulesStable();
    UnlessDefaultStable(v);
    if k == "provider" {
      if v.Obj? {
        VanishesIff(v.members);
        FilteredTwice(ProviderRule, v.members);
      }
    } else if k == "capabilities" {
      CapabilityRuleStable();
      FilteredTwice(CapabilityRule, if v.Obj? then v.members else []);
    } else if k == "supportedInterfaces" {
      ListRuleStable(InterfaceRule, v);
    } else if k == "skills" {
      ListRuleStable(SkillRule, v);
    }
  }

  lemma ListRuleStable(rule: Rule, v: Field)
    requires Stable(rule)
    ensures ListRule(rule, v).Keep? ==> ListRule(rule, ListRule(rule, v).value) == ListRule(rule, v)
  {
    if Iterated(v).Some? { CleanObjectsTwice(rule, Iterated(v).value); }
  }

  lemma {:induction false} FilteredHas(rule: Rule, d: Object, k: string)
    requires ValidDict(d) && k in Names(d)
    ensures Get(Filtered(rule, d), k) == match rule(k, Get(d, k)) case Keep(v) => v case _ => Null
    ensures k in Names(Filtered(rule, d)) <==> rule(k, Get(d, k)).Keep?
  {
    var n := |d| - 1;
    var front := d[..n];
    assert d == front + [d[n]];
    ValidFront(d);
    NamesSnoc(front, d[n]);
    SnocGet(front, d[n]);
    hide Names, Get;
    var f := rule(d[n].key, d[n].value);
    if f.Keep? {
      KeyIsNew(rule, d, n);
      NamesSnoc(Filtered(rule, front), Member(d[n].key, f.value));
      SnocGet(Filtered(rule, front), Member(d[n].key, f.value));
    }
    if k == d[n].key {
      FilteredNames(rule, front);
    } else {
      FilteredHas(rule, front, k);
    }
  }

  lemma ValidFront(d: Object)
    requires ValidDict(d) && d != []
    ensures ValidDict(d[..|d| - 1]) && d[|d| - 1].key !in Names(d[..|d| - 1])
  {
    hide Names;
    var n := |d| - 1;
    assert d == d[..n] + [d[n]];
    NamesSnoc(d[..n], d[n]);
    assert forall i :: 0 <= i < n ==> Names(d[..n])[i] == Names(d)[i];
  }

  lemma {:induction false} SnocGet(d: Object, m: Member<EsNumber>)
    requires m.key !in Names(d)
    ensures forall k :: Get(d + [m], k) == if k == m.key then m.value else Get(d, k)
  {
    if d != [] {
      assert Names(d) == [d[0].key] + Names(d[1..]);
      SnocGet(d[1..], m);
      assert (d + [m])[1..] == d[1..] + [m];
      forall k ensures Get(d + [m], k) == if k == m.key then m.value else Get(d, k) {
        GetCons(d + [m], k);
        GetCons(d, k);
      }
    } else {
      assert Names(d + [m]) == [m.key];
    }
  }

  /** A rule whose results are well-formed. */
  ghost predicate WellFormedRule(rule: Rule) {
    forall k, v :: WellFormed(v) && rule(k, v).Keep? ==> WellFormed(rule(k, v).value)
  }

  lemma {:induction false} FilteredValid(rule: Rule, d: Object)
    requires ValidDict(d)
    ensures Distinct(Names(Filtered(rule, d)))
    ensures WellFormedRule(rule) ==> ValidDict(Filtered(rule, d))
  {
    hide Names, Distinct, WellFormed;
    if d == [] {
      EmptyIsValid();
    } else {
      var n := |d| - 1;
      ValidFront(d);
      FilteredValid(rule, d[..n]);
      var f := rule(d[n].key, d[n].value);
      if f.Keep? {
        KeyIsNew(rule, d, n);
        DistinctSnoc(Filtered(rule, d[..n]), Member(d[n].key, f.value));
        if WellFormedRule(rule) {
          assert WellFormed(d[n].value) by { MemberIsValid(d, n); }
          ValidSnoc(Filtered(rule, d[..n]), Member(d[n].key, f.value));
        }
      }
    }
  }

  lemma EmptyIsValid()
    ensures Names<EsNumber>([]) == [] && Distinct(Names<EsNumber>([])) && ValidDict<EsNumber>([])
  {
  }

  lemma MemberIsValid(d: Object, i: nat)
    requires ValidDict(d) && i < |d|
    ensures WellFormed(d[i].value)
  {
  }

  lemma DistinctSnoc(d: Object, m: Member<EsNumber>)
    requires Distinct(Names(d)) && m.key !in Names(d)
    ensures Distinct(Names(d + [m]))
  {
    NamesSnoc(d, m);
  }

  lemma ValidSnoc(d: Object, m: Member<EsNumber>)
    requires ValidDict(d) && m.key !in Names(d) && WellFormed(m.value)
    ensures ValidDict(d + [m])
  {
    DistinctSnoc(d, m);
  }

  ghost predicate AllWellFormed(xs: seq<Field>) { forall i :: 0 <= i < |xs| ==> WellFormed(xs[i]) }

  lemma {:induction false} CleanObjectsWellFormed(rule: Rule, xs: seq<Field>)
    requires WellFormedRule(rule) && AllWellFormed(xs)
    ensures AllWellFormed(CleanObjects(rule, xs))
  {
    if xs != [] {
      assert WellFormed(xs[0]);
      CleanObjectsWellFormed(rule, xs[1..]);
      if xs[0].Obj? { FilteredValid(rule, xs[0].members); }
    }
  }

  lemma SimpleRulesWellFormed()
    ensures WellFormedRule(ProviderRule) && WellFormedRule(InterfaceRule) && WellFormedRule(SkillRule) &&
      WellFormedRule(ExtensionRule)
  {
    forall k: string, v: Field | WellFormed(v)
      ensures ProviderRule(k, v).Keep? ==> WellFormed(ProviderRule(k, v).value)
      ensures InterfaceRule(k, v).Keep? ==> WellFormed(InterfaceRule(k, v).value)
      ensures SkillRule(k, v).Keep? ==> WellFormed(SkillRule(k, v).value)
      ensures ExtensionRule(k, v).Keep? ==> WellFormed(ExtensionRule(k, v).value)
    {
      UnlessDefaultStable(v);
    }
  }

  lemma CapabilityRuleWellFormed()
    ensures WellFormedRule(CapabilityRule)
  {
    SimpleRulesWellFormed();
    forall k: string, v: Field | WellFormed(v) && CapabilityRule(k, v).Keep?
      ensures WellFormed(CapabilityRule(k, v).value)
    {
      UnlessDefaultStable(v);
      if v.Arr? { CleanObjectsWellFormed(ExtensionRule, v.items); }
    }
  }

  lemma ListRuleWellFormed(rule: Rule, v: Field)
    requires WellFormedRule(rule) && WellFormed(v)
    ensures ListRule(rule, v).Keep? ==> WellFormed(ListRule(rule, v).value)
  {
    if Iterated(v).Some? { CleanObjectsWellFormed(rule, Iterated(v).value); }
  }

  lemma TopMemberWellFormed(k: string, v: Field)
    requires WellFormedRule(ProviderRule) && WellFormedRule(InterfaceRule)
    requires WellFormedRule(SkillRule) && WellFormedRule(CapabilityRule)
    requires WellFormed(v)
    ensures TopRule(k, v).Keep? ==> WellFormed(TopRule(k, v).value)
  {
    hide WellFormedRule, ListRule, Filtered, ProviderRule, InterfaceRule, SkillRule, CapabilityRule;
    hide WellFormed, Names, Distinct;
    EmptyIsValid();
    UnlessDefaultStable(v);
    ListRuleWellFormed(InterfaceRule, v);
    ListRuleWellFormed(SkillRule, v);
    FilteredValid(CapabilityRule, if v.Obj? then v.members else []);
    if v.Obj? { FilteredValid(ProviderRule, v.members); }
  }

  lemma TopRuleWellFormed()
    ensures WellFormedRule(TopRule)
  {
    SimpleRulesWellFormed();
    CapabilityRuleWellFormed();
    forall k: string, v: Field | WellFormed(v) && TopRule(k, v).Keep? ensures WellFormed(TopRule(k, v).value) {
      TopMemberWellFormed(k, v);
    }
  }

  lemma PreparedIsValid(card: Object)
    requires ValidDict(card)
    ensures ValidDict(Filtered(TopRule, card))
  {
    TopRuleWellFormed();
    FilteredValid(TopRule, card);
  }

  lemma EmptyProviderDropped(p: Object)
    requires ValidDict(p) && "provider" in Names(p) && Get(p, "provider") == Obj([])
    ensures Filtered(TopRule, p) != p
  {
    hide Filtered;
    FilteredHas(TopRule, p, "provider");
  }

  /** Preparing a prepared card changes nothing, exactly when its provider did not vanish. */
  lemma PrepareTwiceIff(card: Object)
    requires ValidDict(card) && Prepare(card).Some?
    ensures Prepare(Prepare(card).value) == Prepare(card) <==>
      !("provider" in Names(card) && ProviderVanishes(Get(card, "provider")))
  {
    hide TopRule, Filtered, Fails, Names, Get, ProviderVanishes, WellFormed, Distinct;
    if "provider" in Names(card) && ProviderVanishes(Get(card, "provider")) {
      var p := Filtered(TopRule, card);
      TopRuleStableIff("provider", Get(card, "provider"));
      FilteredHas(TopRule, card, "provider");
      PreparedIsValid(card);
      EmptyProviderDropped(p);
    } else {
      forall i | 0 <= i < |card| ensures StableAt(TopRule, card[i].key, card[i].value) {
        TopRuleStableIff(card[i].key, card[i].value);
        MemberGet(card, i);
      }
      FilteredTwice(TopRule, card);
    }
  }

  /** It does happen: a provider that holds nothing but an empty name. */
  lemma PrepareTwiceDiffers()
    ensures var card := [Member("provider", Obj([Member("name", Str(""))]))];
      ValidDict(card) && Prepare(card).Some? && Prepare(Prepare(card).value) != Prepare(card)
  {
    var provider := [Member("name", Str(""))];
    var card := [Member("provider", Obj(provider))];
    assert Names(provider) == ["name"] && Names(card) == ["provider"];
    assert WellFormed<EsNumber>(Obj(provider));
    MemberGet(card, 0);
    assert ProviderVanishes(Obj(provider));
    assert !Fails(TopRule, card);
    PrepareTwiceIff(card);
  }

  lemma {:induction false} MemberGet(d: Object, i: nat)
    requires ValidDict(d) && i < |d|
    ensures d[i].key in Names(d) && Get(d, d[i].key) == d[i].value
  {
    GetCons(d, d[i].key);
    if i > 0 {
      ValidTail(d);
      MemberGet(d[1..], i - 1);
      assert d[1..][i - 1] == d[i];
    }
    assert Names(d) == [d[0].key] + Names(d[1..]);
  }
}

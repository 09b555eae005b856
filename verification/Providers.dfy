/** Binding a provider hint to a registry profile. */
module Providers {
  import opened Text

  datatype Profile = Profile(id: string, kind: string, capabilities: seq<string>, localOnly: bool)

  /** The registry: profiles in insertion order, and the aliases of their ids. */
  datatype Registry = Registry(profiles: seq<Profile>, aliases: map<string, string>)

  datatype Hint = Hint(
    providerId: Option<string>, requiredCapabilities: seq<string>, preferredKind: Option<string>,
    localOnly: Option<bool>)

  datatype Reason = NotFound | CapabilityUnavailable | LocalOnlyRequired

  datatype Source = Exact | Local | Capability | Kind

  datatype Resolution = Resolved(profile: Profile, source: Source) | Unresolved(reason: Reason)

  /** `register` rejects a second profile with the same id. */
  ghost predicate DistinctIds(profiles: seq<Profile>) {
    forall p, q | p in profiles && q in profiles :: p.id == q.id ==> p == q
  }

  predicate Blank(s: string) { forall c | c in s :: IsSpace(c) }

  function WithId(profiles: seq<Profile>, id: string): (r: Option<Profile>)
    ensures r.Some? ==> r.value in profiles && r.value.id == id
    ensures r.None? ==> forall p | p in profiles :: p.id != id
  {
    if |profiles| == 0 then None
    else if profiles[0].id == id then Some(profiles[0])
    else WithId(profiles[1..], id)
  }

  /** `try_get`: by id or alias. */
  function TryGet(registry: Registry, id: string): Option<Profile> {
    WithId(registry.profiles, if id in registry.aliases then registry.aliases[id] else id)
  }

  /** The profiles that satisfy a predicate, in order. */
  function Select(profiles: seq<Profile>, f: Profile -> bool): (r: seq<Profile>)
    ensures forall p :: p in r <==> p in profiles && f(p)
  {
    if |profiles| == 0 then []
    else (if f(profiles[0]) then [profiles[0]] else []) + Select(profiles[1..], f)
  }

  predicate OffersAny(p: Profile, capabilities: seq<string>) {
    exists c | c in capabilities :: c in p.capabilities
  }

  predicate KindFits(p: Profile, kind: Option<string>) { kind.Some? ==> p.kind == kind.value }

  /** The ids of the profiles that offer one of the capabilities and have the preferred kind. */
  function Candidates(profiles: seq<Profile>, capabilities: seq<string>, kind: Option<string>): set<string> {
    set p | p in profiles && OffersAny(p, capabilities) && KindFits(p, kind) :: p.id
  }

  /** The capability branch, stated on sets: the candidate with the smallest id. A blank capability
      makes the registry raise, which is reported as not found. */
  function ByCapability(profiles: seq<Profile>, capabilities: seq<string>, kind: Option<string>): Resolution {
    if exists c | c in capabilities :: Blank(c) then Unresolved(NotFound)
    else
      var ids := Candidates(profiles, capabilities, kind);
      if ids == {} then Unresolved(CapabilityUnavailable)
      else
        match WithId(profiles, Least(ids))
        case Some(p) => Resolved(p, Capability)
        case None => Unresolved(NotFound)
  }

  function FirstOf(profiles: seq<Profile>, source: Source, reason: Reason): Resolution {
    if |profiles| == 0 then Unresolved(reason) else Resolved(profiles[0], source)
  }

  predicate Exactly(hint: Hint) { hint.providerId.Some? && |hint.providerId.value| > 0 }

  predicate ByCapabilities(hint: Hint) {
    !Exactly(hint) && hint.localOnly != Some(true) && |hint.requiredCapabilities| > 0
  }

  function Resolve(hint: Hint, registry: Option<Registry>): Resolution {
    if registry.None? then Unresolved(NotFound)
    else
      var profiles := registry.value.profiles;
      if Exactly(hint) then
        match TryGet(registry.value, hint.providerId.value)
        case None => Unresolved(NotFound)
        case Some(p) => Resolved(p, Exact)
      else if hint.localOnly == Some(true) then
        FirstOf(Select(profiles, (p: Profile) => p.localOnly), Local, LocalOnlyRequired)
      else if |hint.requiredCapabilities| > 0 then
        ByCapability(profiles, hint.requiredCapabilities, hint.preferredKind)
      else if hint.preferredKind.Some? then
        FirstOf(Select(profiles, (p: Profile) => p.kind == hint.preferredKind.value), Kind, NotFound)
      else Unresolved(NotFound)
  }

  ghost predicate Ascending(ps: seq<Profile>) {
    forall i, j :: 0 <= i < j < |ps| ==> Le(ps[i].id, ps[j].id)
  }

  /** Where a profile goes in an ascending list. */
  method Place(ps: seq<Profile>, p: Profile) returns (k: nat)
    requires Ascending(ps)
    ensures k <= |ps|
    ensures forall i :: 0 <= i < k ==> Le(ps[i].id, p.id)
    ensures forall i :: k <= i < |ps| ==> Le(p.id, ps[i].id)
  {
    k := 0;
    while k < |ps| && Le(ps[k].id, p.id)
      invariant k <= |ps|
      invariant forall i :: 0 <= i < k ==> Le(ps[i].id, p.id)
    {
      k := k + 1;
    }
    if k < |ps| { LeTotal(ps[k].id, p.id); }
    forall i | k <= i < |ps| ensures Le(p.id, ps[i].id) {
      if i > k { LeTransitive(p.id, ps[k].id, ps[i].id); }
    }
  }

  lemma Inserted(ps: seq<Profile>, p: Profile, k: nat)
    requires Ascending(ps) && k <= |ps|
    requires forall i :: 0 <= i < k ==> Le(ps[i].id, p.id)
    requires forall i :: k <= i < |ps| ==> Le(p.id, ps[i].id)
    ensures Ascending(ps[..k] + [p] + ps[k..])
    ensures forall q :: q in ps[..k] + [p] + ps[k..] <==> q in ps || q == p
  {
    hide Le;
    var r := ps[..k] + [p] + ps[k..];
    assert forall i :: 0 <= i < |r| ==> r[i] == if i < k then ps[i] else if i == k then p else ps[i - 1];
    assert ps == ps[..k] + ps[k..];
  }

  /** The list sorted by id. */
  method SortById(ps: seq<Profile>) returns (r: seq<Profile>)
    ensures Ascending(r) && |r| == |ps|
    ensures forall p :: p in r <==> p in ps
  {
    r := [];
    for i := 0 to |ps|
      invariant Ascending(r) && |r| == i
      invariant forall p :: p in r <==> p in ps[..i]
    {
      var k := Place(r, ps[i]);
      Inserted(r, ps[i], k);
      r := r[..k] + [ps[i]] + r[k..];
    }
    assert ps[..|ps|] == ps;
  }

  /** The profiles of every capability in turn, or nothing when the registry raises. */
  method Collect(profiles: seq<Profile>, capabilities: seq<string>) returns (found: Option<seq<Profile>>)
    ensures found.None? <==> exists c | c in capabilities :: Blank(c)
    ensures found.Some? ==> forall p :: p in found.value <==> p in profiles && OffersAny(p, capabilities)
  {
    hide Blank;
    var candidates: seq<Profile> := [];
    for i := 0 to |capabilities|
      invariant forall c | c in capabilities[..i] :: !Blank(c)
      invariant forall p :: p in candidates <==> p in profiles && OffersAny(p, capabilities[..i])
    {
      var c := capabilities[i];
      if Blank(c) { return None; }
      assert capabilities[..i + 1] == capabilities[..i] + [c];
      candidates := candidates + Select(profiles, (p: Profile) => c in p.capabilities);
    }
    assert capabilities[..|capabilities|] == capabilities;
    return Some(candidates);
  }

  /** Every id once, in order of appearance. */
  method Dedupe(candidates: seq<Profile>) returns (deduped: seq<Profile>)
    requires DistinctIds(candidates)
    ensures forall p :: p in deduped <==> p in candidates
    ensures forall i, j :: 0 <= i < j < |deduped| ==> deduped[i].id != deduped[j].id
  {
    deduped := [];
    var seen: set<string> := {};
    for i := 0 to |candidates|
      invariant forall p :: p in deduped <==> p in candidates[..i]
      invariant forall s :: s in seen <==> exists p :: p in deduped && p.id == s
      invariant forall i, j :: 0 <= i < j < |deduped| ==> deduped[i].id != deduped[j].id
    {
      var p := candidates[i];
      if p.id !in seen {
        seen := seen + {p.id};
        deduped := deduped + [p];
      } else {
        var q :| q in deduped && q.id == p.id;
        assert q == p;
      }
    }
    assert candidates[..|candidates|] == candidates;
  }

  /** The first of an ascending list is the candidate with the smallest id. */
  lemma FirstIsLeast(profiles: seq<Profile>, capabilities: seq<string>, kind: Option<string>, sorted: seq<Profile>)
    requires DistinctIds(profiles) && Ascending(sorted) && |sorted| > 0
    requires forall p :: p in sorted <==> p in profiles && OffersAny(p, capabilities) && KindFits(p, kind)
    ensures var ids := Candidates(profiles, capabilities, kind);
      ids != {} && WithId(profiles, Least(ids)) == Some(sorted[0])
  {
    hide OffersAny, KindFits, Least, Le;
    var ids := Candidates(profiles, capabilities, kind);
    var first := sorted[0];
    assert first in profiles && first.id in ids;
    LeTotal(first.id, first.id);
    forall id | id in ids ensures Le(first.id, id) {
      var p :| p in profiles && OffersAny(p, capabilities) && KindFits(p, kind) && p.id == id;
      assert p in sorted;
    }
    LeastUnique(first.id, Least(ids), ids);
    assert WithId(profiles, first.id).value == first;
  }

  method ResolveProviderHint(hint: Hint, registry: Option<Registry>) returns (r: Resolution)
    requires registry.Some? ==> DistinctIds(registry.value.profiles)
    ensures r == Resolve(hint, registry)
  {
    hide OffersAny, Blank, Least, Le, DistinctIds;
    if registry.None? { return Unresolved(NotFound); }
    var profiles := registry.value.profiles;
    if Exactly(hint) {
      var exact := TryGet(registry.value, hint.providerId.value);
      return if exact.None? then Unresolved(NotFound) else Resolved(exact.value, Exact);
    }
    if hint.localOnly == Some(true) {
      return FirstOf(Select(profiles, (p: Profile) => p.localOnly), Local, LocalOnlyRequired);
    }
    if |hint.requiredCapabilities| > 0 {
      var found := Collect(profiles, hint.requiredCapabilities);
      if found.None? { return Unresolved(NotFound); }
      PartDistinct(profiles, found.value);
      var deduped := Dedupe(found.value);
      if hint.preferredKind.Some? {
        deduped := Select(deduped, (p: Profile) => p.kind == hint.preferredKind.value);
      }
      if |deduped| == 0 {
        assert Candidates(profiles, hint.requiredCapabilities, hint.preferredKind) == {};
        return Unresolved(CapabilityUnavailable);
      }
      var sorted := SortById(deduped);
      FirstIsLeast(profiles, hint.requiredCapabilities, hint.preferredKind, sorted);
      return Resolved(sorted[0], Capability);
    }
    if hint.preferredKind.Some? {
      return FirstOf(Select(profiles, (p: Profile) => p.kind == hint.preferredKind.value), Kind, NotFound);
    }
    return Unresolved(NotFound);
  }

  lemma PartDistinct(profiles: seq<Profile>, part: seq<Profile>)
    requires DistinctIds(profiles) && forall p | p in part :: p in profiles
    ensures DistinctIds(part)
  {}

  // ---- what a resolution means -----------------------------------------------------------------------------------

  /** A capability resolution answers with a profile exactly if no capability is blank and some profile
      qualifies; the profile qualifies, and every other one that does has a larger id. */
  lemma CapabilityPicksSmallest(hint: Hint, registry: Registry)
    requires ByCapabilities(hint) && DistinctIds(registry.profiles)
    ensures var r := Resolve(hint, Some(registry));
      && (r.Resolved? <==>
            && (forall c | c in hint.requiredCapabilities :: !Blank(c))
            && exists p | p in registry.profiles ::
                 OffersAny(p, hint.requiredCapabilities) && KindFits(p, hint.preferredKind))
      && (r.Resolved? ==>
            && r.profile in registry.profiles && OffersAny(r.profile, hint.requiredCapabilities)
            && KindFits(r.profile, hint.preferredKind)
            && forall p | p in registry.profiles
                          && OffersAny(p, hint.requiredCapabilities) && KindFits(p, hint.preferredKind) ::
                 Le(r.profile.id, p.id) && (p != r.profile ==> p.id != r.profile.id))
  {
    hide OffersAny, Blank, Least, Le, KindFits;
    var profiles := registry.profiles;
    var ids := Candidates(profiles, hint.requiredCapabilities, hint.preferredKind);
    if p :| p in profiles && OffersAny(p, hint.requiredCapabilities) && KindFits(p, hint.preferredKind) {
      assert p.id in ids;
      var least := Least(ids);
      var q :| q in profiles && OffersAny(q, hint.requiredCapabilities) && KindFits(q, hint.preferredKind)
               && q.id == least;
      assert WithId(profiles, least) == Some(q);
    }
  }

  /** The answer does not depend on the order or the repetition of the required capabilities, nor on the
      order in which the profiles were registered. */
  lemma CapabilityOrderIrrelevant(hint: Hint, hint': Hint, registry: Registry, registry': Registry)
    requires ByCapabilities(hint) && ByCapabilities(hint') && hint.preferredKind == hint'.preferredKind
    requires DistinctIds(registry.profiles)
    requires forall c :: c in hint.requiredCapabilities <==> c in hint'.requiredCapabilities
    requires forall p :: p in registry.profiles <==> p in registry'.profiles
    ensures Resolve(hint, Some(registry)) == Resolve(hint', Some(registry'))
  {
    hide Blank, Least, Le, KindFits;
    var ids := Candidates(registry.profiles, hint.requiredCapabilities, hint.preferredKind);
    assert ids == Candidates(registry'.profiles, hint'.requiredCapabilities, hint'.preferredKind);
    if ids != {} {
      var a, b := WithId(registry.profiles, Least(ids)), WithId(registry'.profiles, Least(ids));
      assert a.Some? && b.Some? by {
        var p :| p in registry.profiles && p.id == Least(ids);
      }
      assert a == b;
    }
  }

  /** Further capabilities keep a resolution if and only if none of them is blank, and then they can only
      lower the chosen id. */
  lemma MoreCapabilitiesLowerId(hint: Hint, extra: seq<string>, registry: Registry)
    requires ByCapabilities(hint) && DistinctIds(registry.profiles)
    requires Resolve(hint, Some(registry)).Resolved?
    ensures var wider := hint.(requiredCapabilities := hint.requiredCapabilities + extra);
      var r := Resolve(wider, Some(registry));
      && (r.Resolved? <==> forall c | c in extra :: !Blank(c))
      && (r.Resolved? ==> Le(r.profile.id, Resolve(hint, Some(registry)).profile.id))
  {
    var wider := hint.(requiredCapabilities := hint.requiredCapabilities + extra);
    hide Blank, Le, KindFits, Resolve;
    CapabilityPicksSmallest(hint, registry);
    CapabilityPicksSmallest(wider, registry);
    var p := Resolve(hint, Some(registry)).profile;
    assert OffersAny(p, wider.requiredCapabilities);
    if Resolve(wider, Some(registry)).Resolved? {
      forall c | c in extra ensures !Blank(c) { assert c in wider.requiredCapabilities; }
    }
  }

  // ---- the branches that take the first match ------------------------------------------------------------------

  /** The hint is resolved by the first local profile, or by the first one of the preferred kind. */
  predicate ByFirstMatch(hint: Hint) {
    !Exactly(hint) && (hint.localOnly == Some(true) || (|hint.requiredCapabilities| == 0 && hint.preferredKind.Some?))
  }

  /** What that branch looks for. */
  predicate Matches(hint: Hint, p: Profile)
    requires ByFirstMatch(hint)
  {
    if hint.localOnly == Some(true) then p.localOnly else p.kind == hint.preferredKind.value
  }

  lemma FirstMatch(hint: Hint, registry: Registry)
    requires ByFirstMatch(hint)
    ensures var r := Resolve(hint, Some(registry));
      && (r.Resolved? ==> r.profile in registry.profiles && Matches(hint, r.profile))
      && (r.Unresolved? ==> forall p | p in registry.profiles :: !Matches(hint, p))
  {}

  /** What the branch answers for a profile, whatever else is registered. */
  lemma FirstMatchAnswer(hint: Hint, registry: Registry, registry': Registry)
    requires ByFirstMatch(hint)
    ensures var r, r' := Resolve(hint, Some(registry)), Resolve(hint, Some(registry'));
      && (r.Resolved? && r'.Resolved? && r.profile == r'.profile ==> r == r')
      && (r.Unresolved? && r'.Unresolved? ==> r == r')
  {}

  lemma MatchInFront(hint: Hint, registry: Registry, p: Profile, rest: seq<Profile>)
    requires ByFirstMatch(hint) && Matches(hint, p) && registry.profiles == [p] + rest
    ensures Resolve(hint, Some(registry)).Resolved? && Resolve(hint, Some(registry)).profile == p
  {}

  ghost predicate Reordering(a: seq<Profile>, b: seq<Profile>) { multiset(a) == multiset(b) }

  lemma ReorderingHolds(a: seq<Profile>, b: seq<Profile>)
    requires Reordering(a, b)
    ensures forall p :: p in a <==> p in b
  {
    forall p ensures p in a <==> p in b { assert p in multiset(a) <==> p in multiset(b); }
  }

  /** Any profile can be registered first. */
  lemma MovedToFront(profiles: seq<Profile>, k: nat) returns (moved: seq<Profile>)
    requires k < |profiles|
    ensures Reordering(moved, profiles) && moved == [profiles[k]] + profiles[..k] + profiles[k + 1..]
  {
    moved := [profiles[k]] + profiles[..k] + profiles[k + 1..];
    assert profiles == profiles[..k] + [profiles[k]] + profiles[k + 1..];
  }

  ghost predicate AtMostOneMatch(hint: Hint, registry: Registry)
    requires ByFirstMatch(hint)
  {
    forall p, q | p in registry.profiles && q in registry.profiles ::
      Matches(hint, p) && Matches(hint, q) ==> p == q
  }

  /** In the local and the kind branch the answer is the same for every order of registration if and
      only if at most one registered profile matches. */
  lemma FirstMatchDependsOnOrder(hint: Hint, registry: Registry)
    requires ByFirstMatch(hint)
    ensures (forall profiles | Reordering(profiles, registry.profiles) ::
               Resolve(hint, Some(registry.(profiles := profiles))) == Resolve(hint, Some(registry)))
       <==> AtMostOneMatch(hint, registry)
  {
    hide Resolve, Matches, ByFirstMatch, Reordering;
    FirstMatch(hint, registry);
    var r := Resolve(hint, Some(registry));
    if AtMostOneMatch(hint, registry) {
      forall profiles | Reordering(profiles, registry.profiles)
        ensures Resolve(hint, Some(registry.(profiles := profiles))) == r
      {
        ReorderingHolds(profiles, registry.profiles);
        FirstMatch(hint, registry.(profiles := profiles));
        FirstMatchAnswer(hint, registry, registry.(profiles := profiles));
      }
    }
    if p, q :| p in registry.profiles && q in registry.profiles && Matches(hint, p) && Matches(hint, q) && p != q {
      OtherOrder(hint, registry, if r.Resolved? && r.profile == p then q else p);
    }
  }

  /** A match that is not the answer becomes the answer when it is registered first. */
  lemma OtherOrder(hint: Hint, registry: Registry, p: Profile)
    requires ByFirstMatch(hint) && p in registry.profiles && Matches(hint, p)
    requires Resolve(hint, Some(registry)).Resolved? ==> Resolve(hint, Some(registry)).profile != p
    ensures exists profiles ::
      Reordering(profiles, registry.profiles)
      && Resolve(hint, Some(registry.(profiles := profiles))) != Resolve(hint, Some(registry))
  {
    hide Resolve, Matches, ByFirstMatch, Reordering;
    var k :| 0 <= k < |registry.profiles| && registry.profiles[k] == p;
    var moved := MovedToFront(registry.profiles, k);
    var rest := registry.profiles[..k] + registry.profiles[k + 1..];
    assert moved == [p] + rest;
    MatchInFront(hint, registry.(profiles := moved), p, rest);
  }

  // ---- does the answer meet the hint? ---------------------------------------------------------------------------

  /** The profile offers one of the required capabilities, if there are any, is of the preferred kind, and
      is local if the hint demands it. */
  predicate Meets(p: Profile, hint: Hint) {
    && (|hint.requiredCapabilities| > 0 ==> OffersAny(p, hint.requiredCapabilities))
    && KindFits(p, hint.preferredKind)
    && (hint.localOnly == Some(true) ==> p.localOnly)
  }

  /** No registry can make the hint resolve to a profile that does not meet it. */
  ghost predicate Guaranteed(hint: Hint) {
    forall registry: Registry | DistinctIds(registry.profiles) ::
      var r := Resolve(hint, Some(registry)); r.Resolved? ==> Meets(r.profile, hint)
  }

  predicate NoRequirement(hint: Hint) { |hint.requiredCapabilities| == 0 && hint.preferredKind.None? }

  /** A resolved profile is guaranteed to meet the hint if and only if the hint asks neither for an id nor
      for a local profile, or requires neither capability nor kind and does not ask for both an id and a
      local profile. */
  lemma GuaranteedExactly(hint: Hint)
    ensures Guaranteed(hint) <==>
      || (!Exactly(hint) && hint.localOnly != Some(true))
      || (NoRequirement(hint) && !(Exactly(hint) && hint.localOnly == Some(true)))
  {
    hide Resolve, Meets, OffersAny;
    if (!Exactly(hint) && hint.localOnly != Some(true))
       || (NoRequirement(hint) && !(Exactly(hint) && hint.localOnly == Some(true))) {
      forall registry: Registry | DistinctIds(registry.profiles) && Resolve(hint, Some(registry)).Resolved?
        ensures Meets(Resolve(hint, Some(registry)).profile, hint)
      {
        if !Exactly(hint) && hint.localOnly != Some(true) {
          AnswerMeets(hint, registry);
        } else {
          NothingElseAsked(hint, registry);
        }
      }
    } else {
      UnfitAnswers(hint, Unfit(hint));
    }
  }

  lemma NothingElseAsked(hint: Hint, registry: Registry)
    requires NoRequirement(hint) && !(Exactly(hint) && hint.localOnly == Some(true))
    requires Resolve(hint, Some(registry)).Resolved?
    ensures Meets(Resolve(hint, Some(registry)).profile, hint)
  {
    if hint.localOnly == Some(true) { FirstMatch(hint, registry); }
  }

  lemma AnswerMeets(hint: Hint, registry: Registry)
    requires !Exactly(hint) && hint.localOnly != Some(true) && DistinctIds(registry.profiles)
    requires Resolve(hint, Some(registry)).Resolved?
    ensures Meets(Resolve(hint, Some(registry)).profile, hint)
  {
    hide OffersAny, Blank, ByCapability, DistinctIds, Select;
    if |hint.requiredCapabilities| > 0 {
      CapabilityPicksSmallest(hint, registry);
    } else if hint.preferredKind.Some? {
      FirstMatch(hint, registry);
    }
  }

  /** A profile that answers the hint without capabilities and of another kind; it has the id that the
      hint asks for and is remote, or is local if the hint asks for no id. */
  function Unfit(hint: Hint): Profile {
    Profile(if hint.providerId.Some? then hint.providerId.value else "local",
      if hint.preferredKind == Some("gemini") then "bedrock" else "gemini", [], !Exactly(hint))
  }

  lemma UnfitAnswers(hint: Hint, p: Profile)
    requires p == Unfit(hint) && (Exactly(hint) || hint.localOnly == Some(true))
    requires !NoRequirement(hint) || (Exactly(hint) && hint.localOnly == Some(true))
    ensures !Guaranteed(hint)
  {
    var registry := Registry([p], map[]);
    assert DistinctIds(registry.profiles);
    assert Resolve(hint, Some(registry)).Resolved? && Resolve(hint, Some(registry)).profile == p;
    assert "gemini"[0] != "bedrock"[0];
    assert !Meets(p, hint);
  }

  // ---- which answer each hint gets ----------------------------------------------------------------------------------

  /** A hint for an id is answered by the profile with that id, under its own name or an alias, and by nothing else. */
  lemma ExactAnswer(hint: Hint, registry: Registry)
    requires hint.providerId.Some? && hint.providerId.value != "" && DistinctIds(registry.profiles)
    ensures var name := hint.providerId.value;
      var id := if name in registry.aliases then registry.aliases[name] else name;
      var r := Resolve(hint, Some(registry));
      && (forall p | p in registry.profiles && p.id == id :: r == Resolved(p, Exact))
      && ((forall p | p in registry.profiles :: p.id != id) ==> r == Unresolved(NotFound))
  {}

  /** How a hint without an id is answered: with the source of its branch, or with the reason that goes with it. */
  lemma AnswerExactly(hint: Hint, registry: Registry)
    requires hint.providerId.None? || hint.providerId.value == ""
    ensures Resolve(hint, None) == Unresolved(NotFound)
    ensures var r := Resolve(hint, Some(registry));
      if hint.localOnly == Some(true) then
        if r.Resolved? then r.source == Local else r.reason == LocalOnlyRequired
      else if hint.requiredCapabilities != [] then
        if r.Resolved? then r.source == Capability
        else (r.reason == NotFound <==> exists c | c in hint.requiredCapabilities :: Blank(c))
             && (r.reason == NotFound || r.reason == CapabilityUnavailable)
      else if hint.preferredKind.Some? then
        if r.Resolved? then r.source == Kind else r.reason == NotFound
      else r == Unresolved(NotFound)
  {
    hide Blank, OffersAny, KindFits, Least;
    if hint.requiredCapabilities != [] && hint.localOnly != Some(true) {
      LeastIsThere(registry.profiles, hint.requiredCapabilities, hint.preferredKind);
    }
  }

  lemma LeastIsThere(profiles: seq<Profile>, capabilities: seq<string>, kind: Option<string>)
    ensures var ids := Candidates(profiles, capabilities, kind);
      ids != {} ==> WithId(profiles, Least(ids)).Some?
  {
    hide OffersAny, KindFits, Least;
    var ids := Candidates(profiles, capabilities, kind);
    if ids != {} {
      var p :| p in profiles && OffersAny(p, capabilities) && KindFits(p, kind) && p.id == Least(ids);
    }
  }

  /** The first match in the order of registration. */
  lemma FirstMatchIsFirst(hint: Hint, registry: Registry, k: nat)
    requires ByFirstMatch(hint) && k < |registry.profiles| && Matches(hint, registry.profiles[k])
    requires forall i :: 0 <= i < k ==> !Matches(hint, registry.profiles[i])
    ensures Resolve(hint, Some(registry)) ==
      Resolved(registry.profiles[k], if hint.localOnly == Some(true) then Local else Kind)
  {
    var f := (p: Profile) => if hint.localOnly == Some(true) then p.localOnly else Some(p.kind) == hint.preferredKind;
    SelectFirst(registry.profiles, f, k);
    if hint.localOnly == Some(true) {
      SameSelection(registry.profiles, f, (p: Profile) => p.localOnly);
    } else {
      SameSelection(registry.profiles, f, (p: Profile) => p.kind == hint.preferredKind.value);
    }
  }

  lemma {:induction false} SelectFirst(profiles: seq<Profile>, f: Profile -> bool, k: nat)
    requires k < |profiles| && f(profiles[k]) && forall i :: 0 <= i < k ==> !f(profiles[i])
    ensures |Select(profiles, f)| > 0 && Select(profiles, f)[0] == profiles[k]
  {
    if k > 0 { SelectFirst(profiles[1..], f, k - 1); }
  }

  lemma {:induction false} SameSelection(profiles: seq<Profile>, f: Profile -> bool, g: Profile -> bool)
    requires forall p :: f(p) == g(p)
    ensures Select(profiles, f) == Select(profiles, g)
  {
    if |profiles| > 0 { SameSelection(profiles[1..], f, g); }
  }
}

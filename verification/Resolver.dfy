// ZenUniverse dependency resolution: mutually recursive, with trial copies for alternatives.
// Capability groups are taken as already parsed option lists.
module Resolver {
  import opened Ranking
  import opened Versions
  import opened Catalogue

  datatype Diagnostic = Rejected(option: string, reason: Blocker) | Unresolved(option: string)
  datatype Decision = Decision(options: seq<string>, selected: string, satisfied: bool)

  // Entries of `order` are positions in the catalogue.
  datatype Plan = Plan(
    order: seq<nat>, blocked: seq<Blocker>, diagnostics: seq<Diagnostic>,
    alternatives: seq<Decision>, assets: set<string>)

  datatype State = State(active: set<string>, emitted: set<string>, plan: Plan)

  // `append_blocker`: once each.
  function Block(p: Plan, b: Blocker): (r: Plan)
    ensures b in r.blocked && p.blocked <= r.blocked && r == p.(blocked := r.blocked)
  {
    if b in p.blocked then p else p.(blocked := p.blocked + [b])
  }

  function Note(p: Plan, d: Diagnostic): (r: Plan)
    ensures r == p.(diagnostics := r.diagnostics)
    ensures d in r.diagnostics && p.diagnostics <= r.diagnostics
  {
    if d in p.diagnostics then p else p.(diagnostics := p.diagnostics + [d])
  }

  // ---- what holds of every state ----

  // `emitted` is the host set plus what the ordered providers offer.
  ghost predicate Consistent(w: World, st: State) {
    InCatalogue(w, st.plan.order) && st.emitted == w.host + Offers(w, st.plan.order)
  }

  // Resolution only adds, and gives `active` back as it was.
  ghost predicate Grows(a: State, b: State) {
    && b.active == a.active && a.emitted <= b.emitted
    && a.plan.order <= b.plan.order && a.plan.blocked <= b.plan.blocked
    && a.plan.alternatives <= b.plan.alternatives && a.plan.assets <= b.plan.assets
    && a.plan.diagnostics <= b.plan.diagnostics
  }

  lemma BlockHonest(w: World, p: Plan, b: Blocker)
    requires Genuine(w, b)
    ensures Honest(w, p.blocked) ==> Honest(w, Block(p, b).blocked)
  {
    hide Genuine;
  }

  // ---- the recursion ----

  // The assets of every entry of the order from position `n` on are taken.
  ghost predicate Covered(w: World, n: nat, st: State) {
    forall i :: n <= i < |st.plan.order| ==>
      st.plan.order[i] < |w.records| && AsSet(w.records[st.plan.order[i]].assets) <= st.plan.assets
  }

  ghost predicate Distinct(order: seq<nat>) {
    forall i, j :: 0 <= i < j < |order| ==> order[i] != order[j]
  }

  // What a call delivers: a consistent state that only grew, without repeated entries and with
  // the assets of the new ones, and, when nothing blocks, an order that is still sound.
  ghost predicate Delivered(w: World, a: State, b: State) {
    && Consistent(w, b) && Grows(a, b)
    && (b.plan.blocked == [] && Sound(w, a.plan.order) ==> Sound(w, b.plan.order))
    && (Honest(w, a.plan.blocked) ==> Honest(w, b.plan.blocked))
    && Covered(w, |a.plan.order|, b) && (Distinct(a.plan.order) ==> Distinct(b.plan.order))
  }

  // The asset belongs to a provider in `from` that is taken for some capability in `have`.
  ghost predicate AssetOf(w: World, from: set<nat>, have: set<string>, asset: string) {
    exists d, p :: AssetVia(w, from, have, asset, d, p)
  }

  ghost predicate AssetVia(w: World, from: set<nat>, have: set<string>, asset: string, d: string, p: nat) {
    p in from && d in have && d !in w.host && Chosen(w, d, p) && asset in w.records[p].assets
  }

  // What is added to the order and to the assets comes from the providers in `from`, the assets
  // from those taken for something in `have`.
  ghost predicate Drawn(w: World, from: set<nat>, have: set<string>, a: State, b: State) {
    && (forall i :: |a.plan.order| <= i < |b.plan.order| ==> b.plan.order[i] in from)
    && forall x :: x in b.plan.assets ==> x in a.plan.assets || AssetOf(w, from, have, x)
  }

  lemma DrawnOn(w: World, from: set<nat>, more: set<nat>, all: set<nat>, had: set<string>, have: set<string>,
    a: State, b: State, c: State)
    requires Drawn(w, from, had, a, b) && Drawn(w, more, have, b, c)
    requires from <= all && more <= all && had <= have && a.plan.order <= b.plan.order <= c.plan.order
    ensures Drawn(w, all, have, a, c)
  {
    hide AssetOf;
    assert forall i :: 0 <= i < |b.plan.order| ==> c.plan.order[i] == b.plan.order[i];
    forall x | AssetOf(w, from, had, x) || AssetOf(w, more, have, x)
      ensures AssetOf(w, all, have, x)
    {
      AssetMore(w, from, all, had, have, x);
      AssetMore(w, more, all, have, have, x);
    }
  }

  lemma AssetMore(w: World, from: set<nat>, all: set<nat>, had: set<string>, have: set<string>, x: string)
    requires from <= all && had <= have
    ensures AssetOf(w, from, had, x) ==> AssetOf(w, all, have, x)
  {
    hide Chosen;
    if AssetOf(w, from, had, x) {
      var d, p :| AssetVia(w, from, had, x, d, p);
      assert AssetVia(w, all, have, x, d, p);
    }
  }

  // A call recorded a blocker that was not there before.
  ghost predicate Added(a: State, b: State) {
    b.plan.blocked != a.plan.blocked
  }

  lemma DeliveredTransitive(w: World, a: State, b: State, c: State)
    requires Delivered(w, a, b) && Delivered(w, b, c)
    ensures Delivered(w, a, c)
    ensures c.plan.blocked == [] ==> b.plan.blocked == []
    ensures Added(a, c) ==> Added(a, b) || Added(b, c)
  {
    hide Sound, Consistent, Honest, Distinct;
    assert forall i :: 0 <= i < |b.plan.order| ==> c.plan.order[i] == b.plan.order[i];
  }

  lemma BlockDelivers(w: World, st: State, b: Blocker)
    requires Consistent(w, st) && Genuine(w, b)
    ensures Delivered(w, st, st.(plan := Block(st.plan, b)))
  {
    hide Genuine;
  }

  // A call for `capability` can produce it: it is there, or it is not being resolved already
  // and somebody offers it.
  ghost predicate Obtainable(w: World, st: State, capability: string) {
    capability in st.emitted || (capability !in st.active && Provided(w, capability))
  }

  // What is recorded of a capability that cannot be produced, and the state that leaves.
  function Refusal(st: State, capability: string): (b: Blocker) {
    if capability in st.active then Cycle(capability) else NoProvider(capability)
  }

  function Refused(st: State, capability: string): (r: State) {
    st.(plan := Block(st.plan, Refusal(st, capability)))
  }

  lemma RefusedDelivers(w: World, st: State, capability: string)
    requires Consistent(w, st) && OnPath(w, st.active, capability) && !Obtainable(w, st, capability)
    ensures Delivered(w, st, Refused(st, capability)) && Flawed(w, capability) && !Assured(w, st.active, capability)
  {
    hide Leads, Provided, Sound, Offers, Assured, Chosen;
    FlawedMissing(w, capability);
    if Assured(w, st.active, capability) {
      AssuredNeeds(w, st.active, capability);
    }
    BlockDelivers(w, st, Refusal(st, capability));
  }

  // The state in which the needs of provider `p` are resolved: its capability is active, its
  // own defects are recorded, its assets are taken.
  function Opened(w: World, st: State, capability: string, p: nat): (r: State)
    requires p < |w.records|
  {
    var d := w.records[p];
    var a := if Compatible(w, d) then st.plan else Block(st.plan, WrongArchitecture(d.id, d.architecture));
    var b := if d.availability == "available" then a else Block(a, NotAvailable(d.id, d.availability));
    State(st.active + {capability}, st.emitted, b.(assets := b.assets + AsSet(d.assets)))
  }

  // The state after provider `p` is appended and its capability closed.
  function Closed(w: World, cur: State, capability: string, p: nat): (r: State)
    requires p < |w.records|
  {
    var d := w.records[p];
    if capability in cur.emitted then cur.(active := cur.active - {capability})
    else
      State(cur.active - {capability}, cur.emitted + AsSet(d.offers),
            if p in cur.plan.order then cur.plan else cur.plan.(order := cur.plan.order + [p]))
  }

  lemma ClosedConsistent(w: World, cur: State, capability: string, p: nat)
    requires p < |w.records| && capability in w.records[p].offers && Consistent(w, cur)
    ensures Consistent(w, Closed(w, cur, capability, p)) && capability in Closed(w, cur, capability, p).emitted
    ensures capability !in cur.emitted ==> p !in cur.plan.order
  {
    if capability !in cur.emitted {
      if p in cur.plan.order {
        var i :| 0 <= i < |cur.plan.order| && cur.plan.order[i] == p;
        OffersMember(w, cur.plan.order, i);
        assert false;
      }
      OffersSnoc(w, cur.plan.order, p);
    }
  }

  lemma ClosedSound(w: World, cur: State, capability: string, p: nat)
    requires p < |w.records| && capability in w.records[p].offers && Consistent(w, cur) && Sound(w, cur.plan.order)
    requires var d := w.records[p];
             && Compatible(w, d) && d.availability == "available" && Meets(cur.emitted, d)
             && (NeedsNative(d) ==> NATIVE in cur.emitted || NATIVE in d.offers)
    ensures Sound(w, Closed(w, cur, capability, p).plan.order)
  {
    hide Sound, Meets;
    if capability !in cur.emitted {
      ClosedConsistent(w, cur, capability, p);
      SoundSnoc(w, cur.plan.order, p);
    }
  }

  lemma OpenedHonest(w: World, st: State, capability: string, p: nat)
    requires p < |w.records|
    ensures Honest(w, st.plan.blocked) ==> Honest(w, Opened(w, st, capability, p).plan.blocked)
  {
    var d := w.records[p];
    var a := if Compatible(w, d) then st.plan else Block(st.plan, WrongArchitecture(d.id, d.architecture));
    if !Compatible(w, d) {
      BlockHonest(w, st.plan, WrongArchitecture(d.id, d.architecture));
    }
    if d.availability != "available" {
      BlockHonest(w, a, NotAvailable(d.id, d.availability));
    }
  }

  lemma OpenedFacts(w: World, st: State, capability: string, p: nat)
    requires Consistent(w, st) && p < |w.records|
    ensures var began := Opened(w, st, capability, p);
            && Consistent(w, began) && Delivered(w, began, began)
            && (Honest(w, st.plan.blocked) ==> Honest(w, began.plan.blocked))
            && (Added(st, began) ==> !Usable(w, w.records[p]))
            && (began.plan.blocked == [] ==> Usable(w, w.records[p]) && st.plan.blocked == [])
            && began.active == st.active + {capability} && began.plan.order == st.plan.order &&
              began.emitted == st.emitted
            && st.plan.blocked <= began.plan.blocked && st.plan.alternatives == began.plan.alternatives
            && st.plan.diagnostics == began.plan.diagnostics
            && st.plan.assets <= began.plan.assets && AsSet(w.records[p].assets) <= began.plan.assets
            && began.plan.assets <= st.plan.assets + AsSet(w.records[p].assets)
  {
    hide Sound, Honest, Distinct;
    OpenedHonest(w, st, capability, p);
  }

  // The needs of the provider, after its three resolution phases.
  ghost predicate NeedsDone(w: World, capability: string, p: nat, cur: State)
    requires p < |w.records|
  {
    var r := w.records[p];
    Meets(cur.emitted, r) && (NeedsNative(r) ==> NATIVE in cur.emitted || NATIVE in r.offers)
  }

  // Opening, resolving the needs and closing, as one step.
  lemma ProviderDelivers(w: World, st: State, cur: State, capability: string, p: nat)
    requires Consistent(w, st) && p < |w.records| && capability in w.records[p].offers
    requires capability !in st.active && capability !in st.emitted
    requires Delivered(w, Opened(w, st, capability, p), cur)
    requires cur.plan.blocked == [] ==> NeedsDone(w, capability, p, cur)
    ensures Delivered(w, st, Closed(w, cur, capability, p))
    ensures capability in Closed(w, cur, capability, p).emitted
    ensures Closed(w, cur, capability, p).plan.blocked == cur.plan.blocked
  {
    hide Sound, Meets, Consistent, Honest, Opened, Closed, Covered, Distinct;
    OpenedFacts(w, st, capability, p);
    ClosedConsistent(w, cur, capability, p);
    ClosedKeeps(w, st, cur, capability, p);
    assert cur.active - {capability} == st.active;
    if cur.plan.blocked == [] && Sound(w, st.plan.order) {
      ClosedSound(w, cur, capability, p);
    }
  }

  lemma ClosedKeeps(w: World, st: State, cur: State, capability: string, p: nat)
    requires p < |w.records| && capability in w.records[p].offers && Consistent(w, cur)
    requires st.plan.order <= cur.plan.order && AsSet(w.records[p].assets) <= cur.plan.assets
    ensures var r := Closed(w, cur, capability, p);
            && r.active == cur.active - {capability} && cur.emitted <= r.emitted && cur.plan.order <= r.plan.order
            && r.plan == cur.plan.(order := r.plan.order)
            && (Covered(w, |st.plan.order|, cur) ==> Covered(w, |st.plan.order|, r))
            && (Distinct(cur.plan.order) ==> Distinct(r.plan.order))
            && forall i :: |cur.plan.order| <= i < |r.plan.order| ==> r.plan.order[i] == p
  {
    hide Consistent;
    ClosedConsistent(w, cur, capability, p);
  }

  // What resolving the needs of a provider adds comes from those who serve its capability.
  lemma NeedsDraw(w: World, capability: string, p: nat, began: State, native: State, required: State, cur: State)
    requires capability !in w.host && Chosen(w, capability, p)
    requires Grows(began, native) && Grows(native, required) && Grows(required, cur)
    requires if capability != NATIVE && NeedsNative(w.records[p])
             then Drawn(w, Servers(w, [NATIVE]), native.emitted, began, native) else native == began
    requires Drawn(w, Servers(w, w.records[p].requirements), required.emitted, native, required)
    requires Drawn(w, GroupServers(w, w.records[p].requirementAny), cur.emitted, required, cur)
    ensures Drawn(w, Servers(w, [capability]), cur.emitted, began, cur)
  {
    hide Servers, GroupServers, Chosen, Drawn, NeedsNative;
    var all := Servers(w, [capability]);
    NeedsServed(w, capability, p);
    DrawnReports(w, all, began.emitted, began, began);
    if native != began {
      DrawnOn(w, all, Servers(w, [NATIVE]), all, began.emitted, native.emitted, began, began, native);
    }
    DrawnOn(w, all, Servers(w, w.records[p].requirements), all, native.emitted, required.emitted, began, native,
      required);
    DrawnOn(w, all, GroupServers(w, w.records[p].requirementAny), all, required.emitted, cur.emitted, began, required,
      cur);
  }

  // So does what the whole resolution of the provider adds.
  lemma ProviderDraws(w: World, capability: string, p: nat, st: State, began: State, cur: State)
    requires capability !in w.host && Chosen(w, capability, p) && Consistent(w, cur) && Grows(began, cur)
    requires began.plan.order == st.plan.order && AsSet(w.records[p].assets) <= cur.plan.assets
    requires began.plan.assets <= st.plan.assets + AsSet(w.records[p].assets)
    requires Drawn(w, Servers(w, [capability]), cur.emitted, began, cur)
    ensures var r := Closed(w, cur, capability, p); Drawn(w, Servers(w, [capability]), r.emitted, st, r)
  {
    hide Consistent, Servers, Chosen, Drawn, Closed;
    var r := Closed(w, cur, capability, p);
    var all, have := Servers(w, [capability]), r.emitted;
    ServesItself(w, capability, p);
    ClosedConsistent(w, cur, capability, p);
    ClosedKeeps(w, st, cur, capability, p);
    DrawnOpening(w, all, have, st, began, capability, p);
    DrawnHave(w, all, cur.emitted, have, began, cur);
    DrawnOn(w, all, all, all, have, have, st, began, cur);
    DrawnClosing(w, all, have, cur, r, p);
    DrawnOn(w, all, all, all, have, have, st, cur, r);
  }

  lemma DrawnHave(w: World, from: set<nat>, had: set<string>, have: set<string>, a: State, b: State)
    requires Drawn(w, from, had, a, b) && had <= have
    ensures Drawn(w, from, have, a, b)
  {
    hide AssetOf;
    forall x | AssetOf(w, from, had, x)
      ensures AssetOf(w, from, have, x)
    {
      AssetMore(w, from, from, had, have, x);
    }
  }

  lemma DrawnOpening(w: World, from: set<nat>, have: set<string>, st: State, began: State, capability: string, p: nat)
    requires p in from && capability in have && capability !in w.host && Chosen(w, capability, p)
    requires began.plan.order == st.plan.order && began.plan.assets <= st.plan.assets + AsSet(w.records[p].assets)
    ensures Drawn(w, from, have, st, began)
  {
    hide Chosen, AssetOf;
    forall x | x in w.records[p].assets
      ensures AssetOf(w, from, have, x)
    {
      AssetHeld(w, from, have, x, capability, p);
    }
  }

  lemma AssetHeld(w: World, from: set<nat>, have: set<string>, x: string, d: string, p: nat)
    requires AssetVia(w, from, have, x, d, p)
    ensures AssetOf(w, from, have, x)
  {
  }

  lemma DrawnClosing(w: World, from: set<nat>, have: set<string>, cur: State, r: State, p: nat)
    requires p in from && r.plan.assets == cur.plan.assets
    requires forall i :: |cur.plan.order| <= i < |r.plan.order| ==> r.plan.order[i] == p
    ensures Drawn(w, from, have, cur, r)
  {
    hide AssetOf;
  }

  // After the three phases an unblocked run has what the provider needs, and a new blocker
  // means that the capability is flawed.
  lemma NeedsMet(w: World, capability: string, p: nat, began: State, native: State, required: State, cur: State)
    requires capability !in w.host && Chosen(w, capability, p)
    requires Delivered(w, began, native) && Delivered(w, native, required) && Delivered(w, required, cur)
    requires if capability != NATIVE &&
      NeedsNative(w.records[p]) then Asked(w, NATIVE, began, native) else native == began
    requires AllAsked(w, w.records[p].requirements, native, required)
    requires GroupsAsked(w, w.records[p].requirementAny, required, cur)
    ensures Delivered(w, began, cur)
    ensures cur.plan.blocked == [] ==> NeedsDone(w, capability, p, cur)
    ensures Added(began, cur) ==> Flawed(w, capability)
    ensures Added(began, cur) ==>
      forall active :: began.active == active + {capability} ==> !Assured(w, active, capability)
  {
    hide Sound, Consistent, MeetsAny, Honest, Chosen, Flawed, Assured, SomeAssured;
    var r := w.records[p];
    DeliveredTransitive(w, native, required, cur);
    DeliveredTransitive(w, began, native, cur);
    forall active | began.active == active + {capability} && Assured(w, active, capability)
      ensures !Added(began, cur)
    {
      AssuredNeeds(w, active, capability);
      assert forall k :: 0 <= k < |r.requirements| ==> Requires(r, capability, r.requirements[k]);
    }
    if Added(began, native) {
      FlawedByNeed(w, capability, p, NATIVE);
    }
    if Added(native, required) {
      var k :| 0 <= k < |r.requirements| && Flawed(w, r.requirements[k]);
      FlawedByNeed(w, capability, p, r.requirements[k]);
    }
    if Added(required, cur) {
      var k :| 0 <= k < |r.requirementAny| && AllFlawed(w, r.requirementAny[k]);
      FlawedByGroup(w, capability, p, k);
    }
  }

  // What one request tells: emitted when nothing blocks, flawed and not assured when a blocker
  // is new.
  ghost predicate Asked(w: World, capability: string, a: State, b: State) {
    && (b.plan.blocked == [] ==> capability in b.emitted)
    && (Added(a, b) ==> Flawed(w, capability) && !Assured(w, a.active, capability))
  }

  ghost predicate AllAsked(w: World, capabilities: seq<string>, a: State, b: State) {
    && (b.plan.blocked == [] ==> forall k :: 0 <= k < |capabilities| ==> capabilities[k] in b.emitted)
    && (Added(a, b) ==> exists k :: 0 <= k < |capabilities| && Flawed(w, capabilities[k]))
    && (Added(a, b) ==> !AllAssured(w, a.active, capabilities))
  }

  ghost predicate GroupsAsked(w: World, groups: seq<seq<string>>, a: State, b: State) {
    && (b.plan.blocked == [] ==> forall k :: 0 <= k < |groups| ==> MeetsAny(b.emitted, groups[k]))
    && (Added(a, b) ==> exists k :: 0 <= k < |groups| && AllFlawed(w, groups[k]))
    && (Added(a, b) ==> exists k :: 0 <= k < |groups| && !SomeAssured(w, a.active, groups[k]))
  }

  // `resolve_capability`: the capability is emitted exactly when it is obtainable, whatever is
  // already blocked; and a new blocker means that it is flawed and was not assured.
  method ResolveCapability(w: World, capability: string, st: State) returns (r: State)
    requires Consistent(w, st) && OnPath(w, st.active, capability)
    ensures Delivered(w, st, r)
    ensures Obtainable(w, st, capability) ==> capability in r.emitted
    ensures !Obtainable(w, st, capability) ==> r == Refused(st, capability)
    ensures Asked(w, capability, st, r)
    ensures Drawn(w, Servers(w, [capability]), r.emitted, st, r)
    decreases Offered(w) - st.active, 0
  {
    hide Sound, Offers, Meets, Offered, Genuine, IsBest, OnPath, Flawed, Assured, Opened, Honest, Closed, Drawn,
      Servers, GroupServers, Covered, Distinct, NeedsNative;
    DrawnReports(w, Servers(w, [capability]), st.emitted, st, st);
    if capability in w.host || capability in st.emitted {
      StaysDelivered(w, st);
      return st;
    }
    if capability in st.active {
      RefusedDelivers(w, st, capability);
      DrawnReports(w, Servers(w, [capability]), st.emitted, st, Refused(st, capability));
      return st.(plan := Block(st.plan, Cycle(capability)));
    }
    var p := BestProvider(capability, w.records, w.architecture);
    if p < 0 {
      RefusedDelivers(w, st, capability);
      DrawnReports(w, Servers(w, [capability]), st.emitted, st, Refused(st, capability));
      return st.(plan := Block(st.plan, NoProvider(capability)));
    }
    assert Chosen(w, capability, p);
    var provider := w.records[p];
    var cur := st.(active := st.active + {capability});
    OneLessOpen(w, st, capability, p);
    if provider.architecture != "any" && provider.architecture != w.architecture {
      cur := cur.(plan := Block(cur.plan, WrongArchitecture(provider.id, provider.architecture)));
    }
    if provider.availability != "available" {
      cur := cur.(plan := Block(cur.plan, NotAvailable(provider.id, provider.availability)));
    }
    cur := cur.(plan := cur.plan.(assets := cur.plan.assets + AsSet(provider.assets)));
    ghost var began := cur;
    OpenedIs(w, st, began, capability, p);
    OpenedFacts(w, st, capability, p);
    AskedFor(w, st.active, capability, p);
    cur := ResolveNeeds(w, capability, p, cur);
    ProviderDelivers(w, st, cur, capability, p);
    ProviderDraws(w, capability, p, st, began, cur);
    if Added(st, began) {
      FlawedUnusable(w, capability, p);
    }
    AssuredUsable(w, st.active, capability, p);
    r := cur;
    if capability !in r.emitted {
      if p !in r.plan.order {
        r := r.(plan := r.plan.(order := r.plan.order + [p as nat]));
      }
      r := r.(emitted := r.emitted + AsSet(provider.offers));
    }
    r := r.(active := r.active - {capability});
    ClosedIs(w, cur, r, capability, p);
  }

  // The needs of a provider: the native runtime, its requirements, its groups.
  method ResolveNeeds(w: World, capability: string, p: nat, began: State) returns (cur: State)
    requires Consistent(w, began) && capability !in w.host && Chosen(w, capability, p)
    requires var d := w.records[p];
             && (capability != NATIVE && NeedsNative(d) ==> OnPath(w, began.active, NATIVE))
             && AllOnPath(w, began.active, d.requirements)
             && forall k :: 0 <= k < |d.requirementAny| ==> AllOnPath(w, began.active, d.requirementAny[k])
    ensures Delivered(w, began, cur)
    ensures cur.plan.blocked == [] ==> NeedsDone(w, capability, p, cur)
    ensures Added(began, cur) ==> Flawed(w, capability)
    ensures Added(began, cur) ==>
              forall active :: began.active == active + {capability} ==> !Assured(w, active, capability)
    ensures Drawn(w, Servers(w, [capability]), cur.emitted, began, cur)
    decreases Offered(w) - began.active, 4
  {
    hide Sound, Offers, Meets, Offered, OnPath, Flawed, Assured, Honest, Drawn, Servers, GroupServers, Covered,
      Distinct, NeedsNative, Consistent, AllAsked, GroupsAsked, Asked, IsBest;
    var provider := w.records[p];
    var viaNative := provider.kind == "runtime" && provider.runtime == "native";
    NativeIs(provider);
    StaysDelivered(w, began);
    cur := began;
    if capability != NATIVE && viaNative {
      cur := ResolveCapability(w, NATIVE, cur);
    }
    ghost var native := cur;
    cur := ResolveRequirements(w, provider.requirements, cur);
    ghost var required := cur;
    cur := ResolveGroups(w, provider.requirementAny, cur);
    NeedsMet(w, capability, p, began, native, required, cur);
    NeedsDraw(w, capability, p, began, native, required, cur);
  }

  lemma NativeIs(d: Descriptor)
    ensures NeedsNative(d) <==> d.kind == "runtime" && d.runtime == "native"
  {
  }

  // Reports take nothing.
  lemma DrawnReports(w: World, from: set<nat>, have: set<string>, a: State, b: State)
    requires b.plan.order == a.plan.order && b.plan.assets == a.plan.assets
    ensures Drawn(w, from, have, a, b)
  {
  }

  lemma AssuredUsable(w: World, active: set<string>, capability: string, p: nat)
    requires capability !in w.host && Chosen(w, capability, p)
    ensures Assured(w, active, capability) ==> Usable(w, w.records[p])
  {
    hide Assured, Chosen, Requires, SomeAssured;
    if Assured(w, active, capability) {
      AssuredNeeds(w, active, capability);
    }
  }

  lemma StaysDelivered(w: World, st: State)
    requires Consistent(w, st)
    ensures Delivered(w, st, st) && w.host <= st.emitted
  {
    hide Sound, Honest, Offers, Distinct;
  }

  lemma OneLessOpen(w: World, st: State, capability: string, p: nat)
    requires p < |w.records| && capability in w.records[p].offers && capability !in st.active
    ensures Offered(w) - (st.active + {capability}) < Offered(w) - st.active && Provided(w, capability)
  {
    assert capability in Offered(w) - st.active;
  }

  lemma OpenedIs(w: World, st: State, began: State, capability: string, p: nat)
    requires p < |w.records|
    requires var d := w.records[p];
             var a := if Compatible(w, d) then st.plan else Block(st.plan, WrongArchitecture(d.id, d.architecture));
             var b := if d.availability == "available" then a else Block(a, NotAvailable(d.id, d.availability));
             began == State(st.active + {capability}, st.emitted, b.(assets := b.assets + AsSet(d.assets)))
    ensures began == Opened(w, st, capability, p)
  {
  }

  lemma ClosedIs(w: World, cur: State, r: State, capability: string, p: nat)
    requires p < |w.records|
    requires var d := w.records[p];
             r == if capability in cur.emitted then cur.(active := cur.active - {capability})
                  else State(cur.active - {capability}, cur.emitted + AsSet(d.offers),
                             if p in cur.plan.order then cur.plan else cur.plan.(order := cur.plan.order + [p]))
    ensures r == Closed(w, cur, capability, p)
  {
  }

  method ResolveRequirements(w: World, requirements: seq<string>, st: State) returns (cur: State)
    requires Consistent(w, st) && AllOnPath(w, st.active, requirements)
    ensures Delivered(w, st, cur) && AllAsked(w, requirements, st, cur)
    ensures Drawn(w, Servers(w, requirements), cur.emitted, st, cur)
    decreases Offered(w) - st.active, 1
  {
    hide Sound, Consistent, Offered, Honest, OnPath, Flawed, Assured, Refused, Obtainable, Drawn, Servers, Covered,
      Distinct;
    StaysDelivered(w, st);
    DrawnReports(w, Servers(w, requirements), st.emitted, st, st);
    cur := st;
    var i := 0;
    while i < |requirements|
      invariant i <= |requirements| && Delivered(w, st, cur)
      invariant AllAsked(w, requirements[..i], st, cur) && Drawn(w, Servers(w, requirements), cur.emitted, st, cur)
    {
      var next := ResolveCapability(w, requirements[i], cur);
      OneServes(w, requirements, i);
      DrawnOn(w, Servers(w, requirements), Servers(w, [requirements[i]]), Servers(w, requirements), cur.emitted,
        next.emitted, st, cur, next);
      DeliveredTransitive(w, st, cur, next);
      AllAskedSnoc(w, requirements, i, st, cur, next);
      cur := next;
      i := i + 1;
    }
    assert requirements[..i] == requirements;
  }

  lemma OneServes(w: World, cs: seq<string>, i: nat)
    requires i < |cs|
    ensures Servers(w, [cs[i]]) <= Servers(w, cs)
  {
    hide Serves;
  }

  lemma AllAskedSnoc(w: World, cs: seq<string>, i: nat, st: State, cur: State, next: State)
    requires i < |cs| && AllAsked(w, cs[..i], st, cur) && Asked(w, cs[i], cur, next)
    requires Delivered(w, st, cur) && Delivered(w, cur, next)
    ensures AllAsked(w, cs[..i + 1], st, next)
  {
    hide Flawed, Consistent, Sound, Honest, Assured;
    var now := cs[..i + 1];
    assert now[..i] == cs[..i] && now[i] == cs[i];
    if Added(st, next) {
      if Added(cur, next) {
        assert Flawed(w, now[i]) && !Assured(w, st.active, now[i]);
      } else {
        var k :| 0 <= k < i && Flawed(w, cs[..i][k]);
        assert Flawed(w, now[k]);
        var u :| 0 <= u < i && !Assured(w, st.active, cs[..i][u]);
        assert !Assured(w, st.active, now[u]);
      }
    }
  }

  method ResolveGroups(w: World, groups: seq<seq<string>>, st: State) returns (cur: State)
    requires Consistent(w, st) && forall k :: 0 <= k < |groups| ==> AllOnPath(w, st.active, groups[k])
    ensures Delivered(w, st, cur) && GroupsAsked(w, groups, st, cur)
    ensures Drawn(w, GroupServers(w, groups), cur.emitted, st, cur)
    decreases Offered(w) - st.active, 3
  {
    hide Sound, Consistent, Offered, Honest, OnPath, AllFlawed, SomeAssured, MeetsAny, Obtainable, Stale, Decides,
      Drawn, Servers, GroupServers, Covered, Distinct;
    StaysDelivered(w, st);
    DrawnReports(w, GroupServers(w, groups), st.emitted, st, st);
    cur := st;
    var i := 0;
    while i < |groups|
      invariant i <= |groups| && Delivered(w, st, cur)
      invariant GroupsAsked(w, groups[..i], st, cur) && Drawn(w, GroupServers(w, groups), cur.emitted, st, cur)
    {
      var next := ResolveAlternative(w, groups[i], cur);
      OneGroupServes(w, groups, i);
      DrawnOn(w, GroupServers(w, groups), Servers(w, groups[i]), GroupServers(w, groups), cur.emitted, next.emitted,
        st, cur, next);
      DeliveredTransitive(w, st, cur, next);
      GroupsAskedSnoc(w, groups, i, st, cur, next);
      cur := next;
      i := i + 1;
    }
    assert groups[..i] == groups;
  }

  lemma OneGroupServes(w: World, groups: seq<seq<string>>, i: nat)
    requires i < |groups|
    ensures Servers(w, groups[i]) <= GroupServers(w, groups)
  {
    hide ServesSome;
  }

  lemma GroupsAskedSnoc(w: World, gs: seq<seq<string>>, i: nat, st: State, cur: State, next: State)
    requires i < |gs| && GroupsAsked(w, gs[..i], st, cur) && Delivered(w, st, cur) && Delivered(w, cur, next)
    requires next.plan.blocked == [] ==> MeetsAny(next.emitted, gs[i])
    requires Added(cur, next) ==> AllFlawed(w, gs[i]) && !SomeAssured(w, cur.active, gs[i])
    ensures GroupsAsked(w, gs[..i + 1], st, next)
  {
    hide AllFlawed, SomeAssured, Consistent, Sound, Honest;
    var now := gs[..i + 1];
    assert now[..i] == gs[..i] && now[i] == gs[i];
    if next.plan.blocked == [] {
      forall k | 0 <= k < |now| ensures MeetsAny(next.emitted, now[k]) {
        if k < i {
          assert MeetsAny(cur.emitted, gs[..i][k]);
        }
      }
    }
    if Added(st, next) {
      if Added(cur, next) {
        assert AllFlawed(w, now[i]) && !SomeAssured(w, st.active, now[i]);
      } else {
        var k :| 0 <= k < i && AllFlawed(w, gs[..i][k]);
        assert AllFlawed(w, now[k]);
        var u :| 0 <= u < i && !SomeAssured(w, st.active, gs[..i][u]);
        assert !SomeAssured(w, st.active, now[u]);
      }
    }
  }

  // ---- alternatives ----

  // One trial of an alternative, on a copy of the state.
  datatype Attempt = Attempt(option: string, state: State, addedBlockers: int, addedPackages: int)

  ghost predicate Tried(w: World, st: State, a: Attempt) {
    && Delivered(w, st, a.state) && Asked(w, a.option, st, a.state)
    && Drawn(w, Servers(w, [a.option]), a.state.emitted, st, a.state)
    && (if Obtainable(w, st, a.option) then a.option in a.state.emitted else a.state == Refused(st, a.option))
    && a.addedBlockers == |a.state.plan.blocked| - |st.plan.blocked|
    && a.addedPackages == |a.state.plan.order| - |st.plan.order|
  }

  predicate Preferred(a: Attempt, b: Attempt) {
    if a.addedBlockers != b.addedBlockers then a.addedBlockers < b.addedBlockers
    else if a.addedPackages != b.addedPackages then a.addedPackages < b.addedPackages
    else TextLess(a.option, b.option)
  }

  lemma PreferredAsymmetric(a: Attempt, b: Attempt)
    requires Preferred(a, b)
    ensures !Preferred(b, a)
  {
    TextTrichotomy(a.option, b.option);
  }

  lemma NotPreferredTransitive(a: Attempt, b: Attempt, c: Attempt)
    requires !Preferred(a, b) && !Preferred(b, c)
    ensures !Preferred(a, c)
  {
    hide TextLess;
    TextTrichotomy(a.option, b.option);
    TextTrichotomy(b.option, c.option);
    TextTrichotomy(a.option, c.option);
    if TextLess(b.option, a.option) && TextLess(c.option, b.option) {
      TextTransitive(c.option, b.option, a.option);
    }
  }

  // Fewer blockers, then fewer packages, then the earlier or the same option.
  ghost predicate NoDearer(a: Attempt, b: Attempt) {
    || a.addedBlockers < b.addedBlockers
    || (a.addedBlockers == b.addedBlockers
        && (|| a.addedPackages < b.addedPackages
            || (a.addedPackages == b.addedPackages && (a.option == b.option || Precedes(a.option, b.option)))))
  }

  lemma PreferredExact(a: Attempt, b: Attempt)
    ensures !Preferred(b, a) <==> NoDearer(a, b)
  {
    hide TextLess, Precedes;
    TextOrder(a.option, b.option);
    TextTrichotomy(a.option, b.option);
  }

  // The attempt `min_element` points to: none is preferred to it, and it is preferred to all
  // before it.
  ghost predicate IsFirst(attempts: seq<Attempt>, n: nat, best: int)
    requires n <= |attempts|
  {
    && 0 <= best < n
    && (forall k :: 0 <= k < n ==> !Preferred(attempts[k], attempts[best]))
    && forall k :: 0 <= k < best ==> Preferred(attempts[best], attempts[k])
  }

  lemma FirstReplaced(attempts: seq<Attempt>, n: nat, best: int)
    requires n < |attempts| && IsFirst(attempts, n, best) && Preferred(attempts[n], attempts[best])
    ensures IsFirst(attempts, n + 1, n)
  {
    hide Preferred;
    PreferredAsymmetric(attempts[n], attempts[best]);
    NotPreferredSelf(attempts[n]);
    forall k | 0 <= k < n
      ensures !Preferred(attempts[k], attempts[n]) && Preferred(attempts[n], attempts[k])
    {
      NotPreferredTransitive(attempts[k], attempts[best], attempts[n]);
      if !Preferred(attempts[n], attempts[k]) {
        NotPreferredTransitive(attempts[n], attempts[k], attempts[best]);
      }
    }
  }

  lemma NotPreferredSelf(a: Attempt)
    ensures !Preferred(a, a)
  {
    TextTrichotomy(a.option, a.option);
  }

  // `min_element`; -1 when there is no attempt.
  method FirstPreferred(attempts: seq<Attempt>) returns (best: int)
    ensures best == -1 <==> attempts == []
    ensures attempts != [] ==> IsFirst(attempts, |attempts|, best)
    ensures forall k :: 0 <= k < |attempts| ==> 0 <= best < |attempts| && NoDearer(attempts[best], attempts[k])
  {
    hide Preferred, NoDearer;
    if |attempts| == 0 {
      return -1;
    }
    best := 0;
    NotPreferredSelf(attempts[0]);
    var i := 1;
    while i < |attempts|
      invariant 1 <= i <= |attempts| && IsFirst(attempts, i, best)
    {
      if Preferred(attempts[i], attempts[best]) {
        FirstReplaced(attempts, i, best);
        best := i;
      }
      i := i + 1;
    }
    forall k | 0 <= k < |attempts|
      ensures NoDearer(attempts[best], attempts[k])
    {
      PreferredExact(attempts[best], attempts[k]);
    }
  }

  function Decided(st: State, d: Decision): (r: State)
    ensures r.plan.alternatives != [] && LastDecision(r) == d
  {
    st.(plan := st.plan.(alternatives := st.plan.alternatives + [d]))
  }

  function LastDecision(st: State): (d: Decision)
    requires st.plan.alternatives != []
  {
    st.plan.alternatives[|st.plan.alternatives| - 1]
  }

  lemma DecidedDelivers(w: World, a: State, b: State, d: Decision)
    requires Delivered(w, a, b)
    ensures Delivered(w, a, Decided(b, d))
  {
    hide Sound, Honest;
  }

  // A group that could not be satisfied leaves everything but the reports unchanged.
  ghost predicate Untouched(a: State, b: State) {
    b.active == a.active && b.emitted == a.emitted && b.plan.order == a.plan.order && b.plan.assets == a.plan.assets
  }

  // No option is there, and one cannot be produced, which is on record already: trying it again
  // costs nothing, so it passes for the best attempt.
  ghost predicate Stale(w: World, st: State, options: seq<string>) {
    && (forall k :: 0 <= k < |options| ==> options[k] !in st.emitted)
    && exists j :: 0 <= j < |options| && StaleOption(w, st, options[j])
  }

  ghost predicate StaleOption(w: World, st: State, option: string) {
    !Obtainable(w, st, option) && Refusal(st, option) in st.plan.blocked
  }

  // What a decision means. An unsatisfied group has only flawed options, each reported with a
  // genuine reason, and is untouched; a satisfied one adds no blocker, and its option is there
  // exactly when it was obtainable; that it is not there happens exactly when the group is stale.
  ghost predicate Decides(w: World, st: State, options: seq<string>, r: State)
    requires r.plan.alternatives != []
  {
    var d := LastDecision(r);
    && d.options == options
    && (!d.satisfied ==> Untouched(st, r) && NoAlternative(options) in r.plan.blocked && AllFlawed(w, options))
    && (!d.satisfied && Honest(w, st.plan.blocked) ==>
          forall k :: 0 <= k < |options| ==> Explained(w, r.plan, options[k]))
    && (d.satisfied ==>
          && !Added(st, r) && d.selected in options
          && (d.selected in r.emitted <==> Obtainable(w, st, d.selected)))
    && (d.satisfied && d.selected !in r.emitted <==> Stale(w, st, options))
    && (Stale(w, st, options) ==> Untouched(st, r))
  }

  // The trial loop.
  method TryOptions(w: World, options: seq<string>, st: State) returns (attempts: seq<Attempt>)
    requires Consistent(w, st) && AllOnPath(w, st.active, options)
    ensures |attempts| == |options|
    ensures forall k :: 0 <= k < |options| ==> attempts[k].option == options[k] && Tried(w, st, attempts[k])
    decreases Offered(w) - st.active, 1
  {
    hide Sound, Consistent, Offered, Honest, OnPath, Flawed, Assured, Refused, Obtainable, Delivered, Drawn, Servers;
    attempts := [];
    var i := 0;
    while i < |options|
      invariant i <= |options| && |attempts| == i
      invariant forall k :: 0 <= k < i ==> attempts[k].option == options[k] && Tried(w, st, attempts[k])
    {
      var trial := ResolveCapability(w, options[i], st);
      var a := Attempt(options[i], trial, |trial.plan.blocked| - |st.plan.blocked|,
        |trial.plan.order| - |st.plan.order|);
      assert Tried(w, st, a);
      attempts := attempts + [a];
      i := i + 1;
    }
  }

  // The reports name a genuine reason against the option.
  ghost predicate Explained(w: World, p: Plan, option: string) {
    exists b :: Rejected(option, b) in p.diagnostics && Genuine(w, b)
  }

  // An attempt that added a blocker has one to name.
  lemma LastBlocker(w: World, st: State, a: Attempt)
    requires Tried(w, st, a) && a.addedBlockers != 0
    ensures a.state.plan.blocked != []
    ensures Honest(w, st.plan.blocked) ==> Genuine(w, a.state.plan.blocked[|a.state.plan.blocked| - 1])
  {
    hide Sound, Consistent, Genuine, Drawn, Covered, Distinct;
  }

  // The report of a group without alternative.
  method NoteAttempts(w: World, options: seq<string>, attempts: seq<Attempt>, st: State) returns (r: State)
    requires Consistent(w, st) && AllFlawed(w, options)
    requires forall k :: 0 <= k < |attempts| ==> Tried(w, st, attempts[k]) && attempts[k].addedBlockers != 0
    ensures Delivered(w, st, r) && Untouched(st, r) && NoAlternative(options) in r.plan.blocked
    ensures r.plan.alternatives == st.plan.alternatives
    ensures Honest(w, st.plan.blocked) ==>
              forall k :: 0 <= k < |attempts| ==> Explained(w, r.plan, attempts[k].option)
  {
    hide Sound, Consistent, Honest, AllFlawed, Delivered, Genuine, Tried;
    r := st.(plan := Block(st.plan, NoAlternative(options)));
    GroupGenuine(w, options);
    BlockDelivers(w, st, NoAlternative(options));
    var i := 0;
    while i < |attempts|
      invariant i <= |attempts| && Untouched(st, r) && Delivered(w, st, r) && NoAlternative(options) in r.plan.blocked
      invariant r.plan.alternatives == st.plan.alternatives
      invariant Honest(w, st.plan.blocked) ==> forall k :: 0 <= k < i ==> Explained(w, r.plan, attempts[k].option)
    {
      var blocked := attempts[i].state.plan.blocked;
      var note := if blocked == [] then Unresolved(attempts[i].option)
        else Rejected(attempts[i].option, blocked[|blocked| - 1]);
      LastBlocker(w, st, attempts[i]);
      NoteDelivers(w, st, r, note);
      StillExplained(w, r.plan, Note(r.plan, note));
      r := r.(plan := Note(r.plan, note));
      i := i + 1;
    }
  }

  lemma GroupGenuine(w: World, options: seq<string>)
    requires AllFlawed(w, options)
    ensures Genuine(w, NoAlternative(options))
  {
    hide Flawed;
  }

  lemma StillExplained(w: World, p: Plan, q: Plan)
    requires p.diagnostics <= q.diagnostics
    ensures forall o :: Explained(w, p, o) ==> Explained(w, q, o)
  {
    hide Genuine;
  }

  lemma NoteDelivers(w: World, a: State, b: State, d: Diagnostic)
    requires Delivered(w, a, b)
    ensures Delivered(w, a, b.(plan := Note(b.plan, d)))
  {
    hide Sound, Honest;
  }

  // The chosen attempt adds nothing to the blockers, and is empty exactly for a stale group.
  lemma ChosenDecides(w: World, st: State, options: seq<string>, attempts: seq<Attempt>, best: int)
    requires |attempts| == |options| && IsFirst(attempts, |attempts|, best) && attempts[best].addedBlockers == 0
    requires forall k :: 0 <= k < |options| ==> attempts[k].option == options[k] && Tried(w, st, attempts[k])
    requires Consistent(w, st) && forall k :: 0 <= k < |options| ==> options[k] !in st.emitted
    ensures var a := attempts[best]; var r := Decided(a.state, Decision(options, a.option, true));
            && Delivered(w, st, r) && Decides(w, st, options, r) && !Added(st, r)
            && (r.plan.blocked == [] ==> MeetsAny(r.emitted, options))
            && Drawn(w, Servers(w, options), r.emitted, st, r)
  {
    hide Sound, Consistent, Honest, Flawed, Assured, Preferred, Drawn, Servers, Covered, Distinct;
    var a := attempts[best];
    OneServes(w, options, best);
    assert Tried(w, st, a) && options[best] == a.option;
    var r := Decided(a.state, Decision(options, a.option, true));
    DecidedDelivers(w, st, a.state, Decision(options, a.option, true));
    DrawnReports(w, Servers(w, options), r.emitted, a.state, r);
    DrawnOn(w, Servers(w, [a.option]), Servers(w, options), Servers(w, options), r.emitted, r.emitted, st, a.state, r);
    SameBlockers(st, a.state);
    if j :| 0 <= j < |options| && StaleOption(w, st, options[j]) {
      StaleWins(w, st, attempts, best, j);
    }
  }

  // An obtainable option that was not there makes the order grow.
  lemma OrderGrows(w: World, a: State, b: State, c: string)
    requires Consistent(w, a) && Delivered(w, a, b) && c in b.emitted && c !in a.emitted
    ensures |b.plan.order| > |a.plan.order|
  {
    hide Sound, Honest, Offers;
    assert |b.plan.order| == |a.plan.order| ==> b.plan.order == a.plan.order;
  }

  // A stale option adds neither blockers nor packages, so the best attempt does not either.
  lemma StaleWins(w: World, st: State, attempts: seq<Attempt>, best: int, j: nat)
    requires j < |attempts| && IsFirst(attempts, |attempts|, best)
    requires forall k :: 0 <= k < |attempts| ==> Tried(w, st, attempts[k]) && attempts[k].option !in st.emitted
    requires Consistent(w, st) && StaleOption(w, st, attempts[j].option)
    ensures attempts[best].addedBlockers == 0 && !Obtainable(w, st, attempts[best].option)
  {
    hide Sound, Consistent, Honest, Flawed, Assured;
    var a, b := attempts[j], attempts[best];
    assert Tried(w, st, a) && Tried(w, st, b) && !Preferred(a, b);
    assert a.state == st;
    if Obtainable(w, st, b.option) {
      OrderGrows(w, st, b.state, b.option);
    }
  }

  lemma SameBlockers(a: State, b: State)
    requires a.plan.blocked <= b.plan.blocked && |a.plan.blocked| == |b.plan.blocked|
    ensures a.plan.blocked == b.plan.blocked
  {
  }

  // When even the best attempt adds a blocker, every option is flawed.
  lemma AllFail(w: World, st: State, options: seq<string>, attempts: seq<Attempt>, best: int)
    requires |attempts| == |options| && (attempts != [] ==> IsFirst(attempts, |attempts|, best))
    requires forall k :: 0 <= k < |options| ==> attempts[k].option == options[k] && Tried(w, st, attempts[k])
    requires attempts != [] ==> attempts[best].addedBlockers != 0
    requires Consistent(w, st)
    ensures AllFlawed(w, options) && !SomeAssured(w, st.active, options) && !Stale(w, st, options)
    ensures forall k :: 0 <= k < |attempts| ==> attempts[k].addedBlockers != 0
  {
    hide Sound, Consistent, Honest, Flawed, Assured, Refused, Obtainable;
    if Stale(w, st, options) {
      var j :| 0 <= j < |options| && StaleOption(w, st, options[j]);
      StaleWins(w, st, attempts, best, j);
    }
    forall k | 0 <= k < |options|
      ensures Flawed(w, options[k]) && !Assured(w, st.active, options[k])
    {
      assert Tried(w, st, attempts[k]) && Tried(w, st, attempts[best]) && !Preferred(attempts[k], attempts[best]);
    }
  }

  // `resolve_alternative`.
  method ResolveAlternative(w: World, options: seq<string>, st: State) returns (r: State)
    requires Consistent(w, st) && AllOnPath(w, st.active, options)
    ensures Delivered(w, st, r)
    ensures r.plan.alternatives != [] && Decides(w, st, options, r)
    ensures r.plan.blocked == [] ==> MeetsAny(r.emitted, options)
    ensures Added(st, r) ==> AllFlawed(w, options) && !SomeAssured(w, st.active, options)
    ensures Drawn(w, Servers(w, options), r.emitted, st, r)
    decreases Offered(w) - st.active, 2
  {
    hide Sound, Offers, Offered, Honest, OnPath, Flawed, Assured, Delivered, Tried, IsFirst, Refused, Drawn, Servers;
    StaysDelivered(w, st);
    var i := 0;
    while i < |options|
      invariant i <= |options| && forall k :: 0 <= k < i ==> options[k] !in st.emitted
    {
      if options[i] in w.host || options[i] in st.emitted {
        DecidedDelivers(w, st, st, Decision(options, options[i], true));
        DrawnReports(w, Servers(w, options), st.emitted, st, Decided(st, Decision(options, options[i], true)));
        return Decided(st, Decision(options, options[i], true));
      }
      i := i + 1;
    }
    var attempts := TryOptions(w, options, st);
    var best := FirstPreferred(attempts);
    FirstInside(attempts, best);
    if best >= 0 && attempts[best].addedBlockers == 0 {
      ChosenDecides(w, st, options, attempts, best);
      return Decided(attempts[best].state, Decision(options, attempts[best].option, true));
    }
    AllFail(w, st, options, attempts, best);
    r := NoteAttempts(w, options, attempts, st);
    DecidedDelivers(w, st, r, Decision(options, "-", false));
    r := Decided(r, Decision(options, "-", false));
    DrawnReports(w, Servers(w, options), r.emitted, st, r);
  }

  lemma FirstInside(attempts: seq<Attempt>, best: int)
    requires attempts != [] ==> IsFirst(attempts, |attempts|, best)
    ensures attempts != [] ==> 0 <= best < |attempts|
  {
  }

  // A satisfied decision names an option that is there exactly when the group is not stale; with
  // a clean record no group is.
  lemma CleanDecision(w: World, st: State, options: seq<string>, r: State)
    requires r.plan.alternatives != [] && Decides(w, st, options, r) && LastDecision(r).satisfied
    ensures LastDecision(r).selected in r.emitted <==> !Stale(w, st, options)
    ensures st.plan.blocked == [] ==> !Stale(w, st, options)
  {
  }

  // The record matters: with x already reported missing, the group x|y is decided for x, which
  // nobody offers, although y can be had.
  method StaleDecision() returns (w: World, st: State, r: State)
    ensures Consistent(w, st) && Provided(w, "y") && !Provided(w, "x")
    ensures r.plan.alternatives != [] && LastDecision(r) == Decision(["x", "y"], "x", true)
    ensures "x" !in r.emitted && "y" !in r.emitted
  {
    var provider := Descriptor("p", "1", "runtime", "any", "builtin", "", "available", [], [], ["y"], []);
    w := World([provider], "i386", {});
    var start := State({}, {}, EmptyPlan());
    var options := ["x", "y"];
    assert w.records[0] == provider && "y" in provider.offers && "x" !in provider.offers;
    st := ResolveCapability(w, "x", start);
    assert options[0] == "x" && StaleOption(w, st, options[0]);
    r := ResolveAlternative(w, options, st);
    assert Stale(w, st, options);
    assert Obtainable(w, st, "y");
  }

  // ---- make_plan ----

  function EmptyPlan(): (p: Plan) {
    Plan([], [], [], [], {})
  }

  // The descriptors at the positions of an order, and what they offer together.
  function Listed(w: World, order: seq<nat>): (ds: seq<Descriptor>)
    requires forall i :: 0 <= i < |order| ==> order[i] < |w.records|
    ensures |ds| == |order|
  {
    seq(|order|, i requires 0 <= i < |order| => w.records[order[i]])
  }

  function OfferedBy(ds: seq<Descriptor>): (s: set<string>) {
    if ds == [] then {} else OfferedBy(ds[..|ds| - 1]) + AsSet(ds[|ds| - 1].offers)
  }

  lemma {:induction false} OffersListed(w: World, order: seq<nat>)
    requires InCatalogue(w, order)
    ensures OfferedBy(Listed(w, order)) == Offers(w, order)
  {
    if order != [] {
      var n := |order| - 1;
      OffersListed(w, order[..n]);
      assert Listed(w, order)[..n] == Listed(w, order[..n]);
    }
  }

  // A finished plan lists descriptors, the application last.
  datatype MadePlan = MadePlan(
    order: seq<Descriptor>, blocked: seq<Blocker>, diagnostics: seq<Diagnostic>,
    alternatives: seq<Decision>, assets: set<string>, userAsset: bool)

  // Each entry fits the host and finds what it needs in the host or in strictly earlier entries.
  ghost predicate Installable(w: World, ds: seq<Descriptor>) {
    forall i :: 0 <= i < |ds| ==> Compatible(w, ds[i]) && Meets(w.host + OfferedBy(ds[..i]), ds[i])
  }

  lemma InstallableSnoc(w: World, order: seq<nat>, application: Descriptor)
    requires Sound(w, order) && Compatible(w, application) && Meets(w.host + Offers(w, order), application)
    ensures Installable(w, Listed(w, order) + [application])
  {
    hide Meets, Offers, OfferedBy;
    var ds := Listed(w, order) + [application];
    forall i | 0 <= i < |ds|
      ensures Compatible(w, ds[i]) && Meets(w.host + OfferedBy(ds[..i]), ds[i])
    {
      OffersListed(w, order[..i]);
      assert ds[..i] == Listed(w, order[..i]);
      if i < |order| {
        assert EntrySound(w, order, i);
      } else {
        assert order[..i] == order;
      }
    }
  }

  // Something the application asks for is flawed, or it does not fit the host itself.
  ghost predicate Hopeless(w: World, application: Descriptor) {
    || !Compatible(w, application) || Flawed(w, "runtime." + application.runtime)
    || (exists k :: 0 <= k < |application.requirements| && Flawed(w, application.requirements[k]))
    || exists k :: 0 <= k < |application.requirementAny| && AllFlawed(w, application.requirementAny[k])
  }

  // The application does not fit the host, or something it asks for cannot be provided.
  ghost predicate Unmet(w: World, application: Descriptor) {
    || !Compatible(w, application) || !Providable(w, "runtime." + application.runtime)
    || (exists k :: 0 <= k < |application.requirements| && !Providable(w, application.requirements[k]))
    || exists k :: 0 <= k < |application.requirementAny| && !SomeProvidable(w, application.requirementAny[k])
  }

  // The providers that serve what an application asks for.
  ghost function AllServers(w: World, application: Descriptor): (ps: set<nat>) {
    Servers(w, ["runtime." + application.runtime]) + Servers(w, application.requirements)
    + GroupServers(w, application.requirementAny)
  }

  // The providers come before the application, each once and each serving it.
  ghost predicate Serving(w: World, application: Descriptor, ds: seq<Descriptor>, order: seq<nat>) {
    && InCatalogue(w, order) && ds == Listed(w, order) + [application]
    && Distinct(order) && forall i :: 0 <= i < |order| ==> order[i] in AllServers(w, application)
  }

  // `make_plan`: providers, then the application. When nothing blocks, every entry can be
  // installed where it stands, every provider is available, and the runtime is there; when
  // something blocks, something it asks for cannot be provided, and every blocker is genuine.
  // The assets are those of the entries and of other providers taken on the way, and no more.
  method MakePlan(w: World, application: Descriptor) returns (plan: MadePlan)
    ensures plan.order != [] && plan.order[|plan.order| - 1] == application
    ensures plan.blocked == [] ==>
              && Installable(w, plan.order)
              && (forall i :: 0 <= i < |plan.order| - 1 ==> plan.order[i].availability == "available")
              && "runtime." + application.runtime in w.host + OfferedBy(plan.order[..|plan.order| - 1])
    ensures plan.blocked != [] ==> Unmet(w, application) && Hopeless(w, application) && Honest(w, plan.blocked)
    ensures exists order :: Serving(w, application, plan.order, order)
    ensures forall i :: 0 <= i < |plan.order| ==> AsSet(plan.order[i].assets) <= plan.assets
    ensures forall x :: x in plan.assets ==>
              || x in application.assets
              || AssetOf(w, AllServers(w, application), w.host + OfferedBy(plan.order[..|plan.order| - 1]), x)
    ensures plan.userAsset <==> application.delivery == "user-supplied"
  {
    hide Sound, Offers, MeetsAny, Honest, AllOnPath, OnPath, Delivered, AllFlawed, Flawed, Assured, Meets, Obtainable,
      Refused, Consistent, Unmet, Drawn, Servers, GroupServers, AllServers, AssetOf, Serving, Covered, Distinct;
    var p := EmptyPlan();
    if application.architecture != "any" && application.architecture != w.architecture {
      p := Block(p, ApplicationArchitecture(application.architecture));
    }
    p := p.(assets := p.assets + AsSet(application.assets));
    var start := State({}, w.host, p);
    PlanStart(w, application, start);
    var runtime := ResolveCapability(w, "runtime." + application.runtime, start);
    StillStarts(w, application, start, runtime);
    var required := ResolveRequirements(w, application.requirements, runtime);
    StillStarts(w, application, runtime, required);
    var st := ResolveGroups(w, application.requirementAny, required);
    PlanEnd(w, application, start, runtime, required, st);
    PlanDraws(w, application, start, runtime, required, st);
    plan := MadePlan(Listed(w, st.plan.order) + [application], st.plan.blocked, st.plan.diagnostics,
                     st.plan.alternatives, st.plan.assets, application.delivery == "user-supplied");
  }

  lemma PlanDraws(w: World, application: Descriptor, start: State, runtime: State, required: State, st: State)
    requires start.plan.order == [] && start.plan.assets == AsSet(application.assets)
    requires Delivered(w, start, runtime) && Delivered(w, runtime, required) && Delivered(w, required, st)
    requires Drawn(w, Servers(w, ["runtime." + application.runtime]), runtime.emitted, start, runtime)
    requires Drawn(w, Servers(w, application.requirements), required.emitted, runtime, required)
    requires Drawn(w, GroupServers(w, application.requirementAny), st.emitted, required, st)
    ensures InCatalogue(w, st.plan.order)
    ensures var ds := Listed(w, st.plan.order) + [application];
            && Serving(w, application, ds, st.plan.order)
            && forall i :: 0 <= i < |ds| ==> AsSet(ds[i].assets) <= st.plan.assets
    ensures forall x :: x in st.plan.assets ==>
              || x in application.assets
              || AssetOf(w, AllServers(w, application), w.host + OfferedBy(Listed(w, st.plan.order)), x)
  {
    hide Sound, Honest, Offers, OfferedBy, Servers, GroupServers, AssetOf;
    var all := AllServers(w, application);
    DeliveredTransitive(w, runtime, required, st);
    DeliveredTransitive(w, start, runtime, st);
    DrawnOn(w, Servers(w, ["runtime." + application.runtime]), Servers(w, application.requirements), all,
      runtime.emitted, required.emitted, start, runtime, required);
    DrawnOn(w, all, GroupServers(w, application.requirementAny), all, required.emitted, st.emitted, start, required,
      st);
    OffersListed(w, st.plan.order);
  }

  lemma PlanStart(w: World, application: Descriptor, start: State)
    requires start.active == {} && start.emitted == w.host && start.plan.order == []
    requires start.plan.blocked == if Compatible(w, application) then []
      else [ApplicationArchitecture(application.architecture)]
    ensures Consistent(w, start) && Sound(w, []) && Honest(w, start.plan.blocked)
    ensures OnPath(w, {}, "runtime." + application.runtime)
  {
  }

  lemma StillStarts(w: World, application: Descriptor, a: State, b: State)
    requires Delivered(w, a, b) && a.active == {}
    ensures Consistent(w, b) && b.active == {} && AllOnPath(w, b.active, application.requirements)
    ensures forall k :: 0 <= k < |application.requirementAny| ==> AllOnPath(w, b.active, application.requirementAny[k])
  {
    hide Consistent, Sound, Honest;
  }

  lemma PlanEnd(w: World, application: Descriptor, start: State, runtime: State, required: State, st: State)
    requires start.plan.order == [] && start.active == {} && Sound(w, []) && Honest(w, start.plan.blocked)
    requires start.plan.blocked == if Compatible(w, application) then []
      else [ApplicationArchitecture(application.architecture)]
    requires Delivered(w, start, runtime) && Delivered(w, runtime, required) && Delivered(w, required, st)
    requires Asked(w, "runtime." + application.runtime, start, runtime)
    requires AllAsked(w, application.requirements, runtime, required)
    requires GroupsAsked(w, application.requirementAny, required, st)
    ensures InCatalogue(w, st.plan.order)
    ensures st.plan.blocked == [] ==>
              && Installable(w, Listed(w, st.plan.order) + [application])
              && (forall i :: 0 <= i < |st.plan.order| ==> w.records[st.plan.order[i]].availability == "available")
              && "runtime." + application.runtime in w.host + OfferedBy(Listed(w, st.plan.order))
    ensures st.plan.blocked != [] ==> Unmet(w, application) && Hopeless(w, application) && Honest(w, st.plan.blocked)
    ensures start.plan.assets <= st.plan.assets
  {
    hide Sound, Honest, MeetsAny, Flawed, AllFlawed, Assured, SomeAssured, Installable, Offers, OfferedBy, Covered,
      Distinct;
    DeliveredTransitive(w, runtime, required, st);
    DeliveredTransitive(w, start, runtime, st);
    OffersListed(w, st.plan.order);
    if Compatible(w, application) {
      StartAssured(w, application);
    }
    if st.plan.blocked == [] {
      InstallableSnoc(w, st.plan.order, application);
      SoundAvailable(w, st.plan.order);
    }
  }

  // When everything asked for can be provided, every request at the start is assured.
  lemma StartAssured(w: World, application: Descriptor)
    requires Compatible(w, application)
    ensures !Unmet(w, application) ==>
              && Assured(w, {}, "runtime." + application.runtime) && AllAssured(w, {}, application.requirements)
              && forall k :: 0 <= k < |application.requirementAny| ==>
                   SomeAssured(w, {}, application.requirementAny[k])
  {
    hide Assured, Providable;
    AssuredAtStart(w, "runtime." + application.runtime);
    forall k | 0 <= k < |application.requirements|
      ensures Assured(w, {}, application.requirements[k]) <==> Providable(w, application.requirements[k])
    {
      AssuredAtStart(w, application.requirements[k]);
    }
    forall k | 0 <= k < |application.requirementAny| && SomeProvidable(w, application.requirementAny[k])
      ensures SomeAssured(w, {}, application.requirementAny[k])
    {
      var g := application.requirementAny[k];
      var i :| 0 <= i < |g| && Providable(w, g[i]);
      AssuredAtStart(w, g[i]);
    }
  }

  lemma SoundAvailable(w: World, order: seq<nat>)
    requires Sound(w, order)
    ensures forall i :: 0 <= i < |order| ==> w.records[order[i]].availability == "available"
  {
    hide Meets, Offers;
    forall i | 0 <= i < |order|
      ensures w.records[order[i]].availability == "available"
    {
      assert EntrySound(w, order, i);
    }
  }

  // `make_runtime_plan`.
  method MakeRuntimePlan(w: World, runtime: string) returns (plan: Plan)
    ensures InCatalogue(w, plan.order)
    ensures plan.blocked == [] ==> Sound(w, plan.order) && "runtime." + runtime in w.host + Offers(w, plan.order)
    ensures plan.blocked != [] ==> !Providable(w, "runtime." + runtime) && Flawed(w, "runtime." + runtime)
    ensures Honest(w, plan.blocked)
    ensures Distinct(plan.order)
    ensures forall i :: 0 <= i < |plan.order| ==>
              && plan.order[i] in Servers(w, ["runtime." + runtime])
              && AsSet(w.records[plan.order[i]].assets) <= plan.assets
    ensures forall x :: x in plan.assets ==>
              AssetOf(w, Servers(w, ["runtime." + runtime]), w.host + Offers(w, plan.order), x)
  {
    hide Offers, Flawed, Assured, Providable, Refused, Obtainable, Servers, AssetOf;
    AssuredAtStart(w, "runtime." + runtime);
    var start := State({}, w.host, EmptyPlan());
    RuntimeStart(w, start);
    var st := ResolveCapability(w, "runtime." + runtime, start);
    plan := st.plan;
  }

  lemma RuntimeStart(w: World, start: State)
    requires start == State({}, w.host, EmptyPlan())
    ensures Consistent(w, start) && Sound(w, []) && Honest(w, []) && forall c :: OnPath(w, {}, c)
  {
  }

  // A flaw need not block: the provider of a runtime may name that runtime among its options, as
  // long as another option serves.
  method OptionalCycle() returns (w: World, plan: Plan)
    ensures Flawed(w, "runtime.c") && Providable(w, "runtime.c") && plan.blocked == []
  {
    hide Sound, Offers, Honest;
    var c := Descriptor("c", "1", "package", "any", "builtin", "", "available", [], [["runtime.c", "d"]],
      ["runtime.c"], []);
    var d := Descriptor("d", "1", "package", "any", "builtin", "", "available", [], [], ["d"], []);
    w := World([c, d], "i386", {});
    CycleOption(w, c, d);
    plan := MakeRuntimePlan(w, "c");
    assert "runtime." + "c" == "runtime.c";
  }

  lemma CycleOption(w: World, c: Descriptor, d: Descriptor)
    requires w.records == [c, d] && w.host == {} && c.architecture == d.architecture == "any"
    requires c.availability == d.availability == "available" && c.kind == d.kind == "package"
    requires c.requirements == d.requirements == [] && d.requirementAny == []
    requires c.requirementAny == [["runtime.c", "d"]] && c.offers == ["runtime.c"] && d.offers == ["d"]
    ensures Flawed(w, "runtime.c") && Providable(w, "runtime.c")
  {
    hide Better;
    NotBetterSelf(c, w.architecture);
    NotBetterSelf(d, w.architecture);
    assert "runtime.c"[0] != "d"[0];
    assert Chosen(w, "runtime.c", 0) && Chosen(w, "d", 1);
    var g := c.requirementAny[0];
    assert g[0] == "runtime.c" && g[1] == "d";
    assert Wants(c, "runtime.c", g[0]);
    assert LeadsIn(w, "runtime.c", "runtime.c", 1);
    FlawedMissing(w, "runtime.c");
    assert NeedsProvidable(w, d, "d", 0);
    assert ProvidableIn(w, g[1], 1);
    assert NeedsProvidable(w, c, "runtime.c", 1);
    assert ProvidableIn(w, "runtime.c", 2);
  }
}

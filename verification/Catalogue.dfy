// The catalogue a resolution works on: when an order of providers is sound, and what makes a
// capability impossible to provide.
module Catalogue {
  import opened Ranking

  // What the resolver reports as blocking, one constructor per message.
  datatype Blocker =
    | Cycle(capability: string)
    | NoProvider(capability: string)
    | WrongArchitecture(id: string, architecture: string)
    | NotAvailable(id: string, availability: string)
    | NoAlternative(options: seq<string>)
    | ApplicationArchitecture(architecture: string)

  // The fixed inputs of a resolution.
  datatype World = World(records: seq<Descriptor>, architecture: string, host: set<string>)

  const NATIVE: string := "runtime.native"

  function AsSet(s: seq<string>): (r: set<string>)
    ensures forall x :: x in r <==> x in s
  {
    set x | x in s
  }

  ghost predicate InCatalogue(w: World, order: seq<nat>) {
    forall i :: 0 <= i < |order| ==> order[i] < |w.records|
  }

  // Everything the entries of an order offer.
  ghost function Offers(w: World, order: seq<nat>): (s: set<string>)
    requires InCatalogue(w, order)
  {
    if order == [] then {} else Offers(w, order[..|order| - 1]) + AsSet(w.records[order[|order| - 1]].offers)
  }

  // ---- soundness of an order ----

  ghost predicate Meets(have: set<string>, d: Descriptor) {
    && (forall i :: 0 <= i < |d.requirements| ==> d.requirements[i] in have)
    && (forall i :: 0 <= i < |d.requirementAny| ==> MeetsAny(have, d.requirementAny[i]))
  }

  ghost predicate MeetsAny(have: set<string>, options: seq<string>) {
    exists i :: 0 <= i < |options| && options[i] in have
  }

  predicate Compatible(w: World, d: Descriptor) {
    d.architecture == "any" || d.architecture == w.architecture
  }

  predicate NeedsNative(d: Descriptor) {
    d.kind == "runtime" && d.runtime == "native"
  }

  // Entry `i` is usable on this host, and everything it needs is there before it.
  ghost predicate EntrySound(w: World, order: seq<nat>, i: nat)
    requires InCatalogue(w, order) && i < |order|
  {
    var d, have := w.records[order[i]], w.host + Offers(w, order[..i]);
    && Compatible(w, d) && d.availability == "available"
    && Meets(have, d)
    && (NeedsNative(d) ==> NATIVE in have || NATIVE in d.offers)
  }

  ghost predicate Sound(w: World, order: seq<nat>) {
    InCatalogue(w, order) && forall i :: 0 <= i < |order| ==> EntrySound(w, order, i)
  }

  lemma OffersSnoc(w: World, order: seq<nat>, p: nat)
    requires InCatalogue(w, order) && p < |w.records|
    ensures InCatalogue(w, order + [p])
    ensures Offers(w, order + [p]) == Offers(w, order) + AsSet(w.records[p].offers)
  {
    assert (order + [p])[..|order|] == order;
  }

  lemma {:induction false} OffersMember(w: World, order: seq<nat>, i: nat)
    requires InCatalogue(w, order) && i < |order|
    ensures AsSet(w.records[order[i]].offers) <= Offers(w, order)
  {
    if i < |order| - 1 {
      OffersMember(w, order[..|order| - 1], i);
    }
  }

  // Appending a provider whose needs are met keeps an order sound.
  lemma SoundSnoc(w: World, order: seq<nat>, p: nat)
    requires Sound(w, order) && p < |w.records|
    requires var d, have := w.records[p], w.host + Offers(w, order);
             && Compatible(w, d) && d.availability == "available" && Meets(have, d)
             && (NeedsNative(d) ==> NATIVE in have || NATIVE in d.offers)
    ensures Sound(w, order + [p])
  {
    hide Meets, Offers;
    OffersSnoc(w, order, p);
    var longer := order + [p];
    forall i | 0 <= i < |longer|
      ensures EntrySound(w, longer, i)
    {
      assert longer[..i] == order[..i];
      if i < |order| {
        assert EntrySound(w, order, i);
      } else {
        assert order[..i] == order;
      }
    }
  }

  // ---- termination ----

  // Every capability the catalogue offers.
  function Offered(w: World): (s: set<string>) {
    set i, c | 0 <= i < |w.records| && c in w.records[i].offers :: c
  }

  // ---- flaws of a capability ----

  // The provider the resolver takes for `c`.
  ghost predicate Chosen(w: World, c: string, p: nat)
    ensures Chosen(w, c, p) ==> p < |w.records| && c in w.records[p].offers
  {
    IsBest(w.records, |w.records|, c, w.architecture, p)
  }

  ghost predicate Provided(w: World, c: string) {
    exists k :: 0 <= k < |w.records| && c in w.records[k].offers
  }

  predicate Usable(w: World, d: Descriptor) {
    Compatible(w, d) && d.availability == "available"
  }

  // What provider `r` of `c` requires outright.
  ghost predicate Requires(r: Descriptor, c: string, d: string) {
    d in r.requirements || (d == NATIVE && c != NATIVE && NeedsNative(r))
  }

  // What it may ask for: its requirements and every option of its groups.
  ghost predicate Wants(r: Descriptor, c: string, d: string) {
    Requires(r, c, d) || exists i :: 0 <= i < |r.requirementAny| && d in r.requirementAny[i]
  }

  // The chosen provider of `c` asks for `d`, which the host lacks.
  ghost predicate Asks(w: World, c: string, d: string) {
    d !in w.host && exists p: nat :: Chosen(w, c, p) && Wants(w.records[p], c, d)
  }

  // `c` leads to `d` in `n` requests.
  ghost predicate LeadsIn(w: World, c: string, d: string, n: nat)
    decreases n
  {
    n > 0 && if n == 1 then Asks(w, c, d) else exists e :: LeadsIn(w, c, e, n - 1) && Asks(w, e, d)
  }

  ghost predicate Leads(w: World, c: string, d: string) {
    exists n: nat :: LeadsIn(w, c, d, n)
  }

  lemma LeadsOn(w: World, c: string, e: string, d: string)
    requires Leads(w, c, e) && Asks(w, e, d)
    ensures Leads(w, c, d)
  {
    hide Asks;
    var n: nat :| LeadsIn(w, c, e, n);
    assert LeadsIn(w, c, d, n + 1);
  }

  // The same at the other end.
  lemma {:induction false} LeadsFirst(w: World, c: string, e: string, d: string, n: nat)
    requires Asks(w, c, e) && LeadsIn(w, e, d, n)
    ensures LeadsIn(w, c, d, n + 1)
    decreases n
  {
    hide Asks;
    if n == 1 {
      assert LeadsIn(w, c, e, 1);
    } else {
      var b :| LeadsIn(w, e, b, n - 1) && Asks(w, b, d);
      LeadsFirst(w, c, e, b, n - 1);
    }
  }

  // ---- who serves a request ----

  // Provider `p` is the one taken for `c`, or for something `c` leads to.
  ghost predicate Serves(w: World, c: string, p: nat) {
    c !in w.host && exists d :: Reaches(w, c, d) && Chosen(w, d, p)
  }

  ghost predicate Reaches(w: World, c: string, d: string) {
    d == c || Leads(w, c, d)
  }

  ghost predicate ServesSome(w: World, cs: seq<string>, p: nat) {
    exists k :: 0 <= k < |cs| && Serves(w, cs[k], p)
  }

  ghost predicate ServesGroup(w: World, groups: seq<seq<string>>, p: nat) {
    exists k :: 0 <= k < |groups| && ServesSome(w, groups[k], p)
  }

  // The providers that serve one of the capabilities, or an option of one of the groups.
  ghost function Servers(w: World, cs: seq<string>): (ps: set<nat>) {
    set p: nat | p < |w.records| && ServesSome(w, cs, p)
  }

  ghost function GroupServers(w: World, groups: seq<seq<string>>): (ps: set<nat>) {
    set p: nat | p < |w.records| && ServesGroup(w, groups, p)
  }

  lemma ServesItself(w: World, c: string, p: nat)
    requires c !in w.host && Chosen(w, c, p)
    ensures p in Servers(w, [c])
  {
    hide Chosen, Leads;
    assert Reaches(w, c, c);
    assert [c][0] == c && Serves(w, [c][0], p);
  }

  // Who serves what the provider of `c` wants serves `c`.
  lemma ServesOn(w: World, c: string, p: nat, d: string, q: nat)
    requires c !in w.host && Chosen(w, c, p) && Wants(w.records[p], c, d) && Serves(w, d, q)
    ensures Serves(w, c, q)
  {
    hide Chosen, Wants;
    var e :| Reaches(w, d, e) && Chosen(w, e, q);
    assert Asks(w, c, d);
    if e == d {
      assert LeadsIn(w, c, d, 1);
    } else {
      var n: nat :| LeadsIn(w, d, e, n);
      LeadsFirst(w, c, d, e, n);
    }
    assert Reaches(w, c, e);
  }

  // Whoever serves the needs of the provider of `c` serves `c`.
  lemma NeedsServed(w: World, c: string, p: nat)
    requires c !in w.host && Chosen(w, c, p)
    ensures Servers(w, w.records[p].requirements) <= Servers(w, [c])
    ensures GroupServers(w, w.records[p].requirementAny) <= Servers(w, [c])
    ensures c != NATIVE && NeedsNative(w.records[p]) ==> Servers(w, [NATIVE]) <= Servers(w, [c])
  {
    hide Chosen, Serves, NeedsNative;
    var r := w.records[p];
    assert [c][0] == c && forall q: nat :: Serves(w, c, q) ==> ServesSome(w, [c], q);
    forall q: nat, d | Wants(r, c, d) && Serves(w, d, q)
      ensures Serves(w, c, q)
    {
      ServesOn(w, c, p, d, q);
    }
    assert forall k :: 0 <= k < |r.requirements| ==> Wants(r, c, r.requirements[k]);
    forall q: nat | ServesGroup(w, r.requirementAny, q)
      ensures Serves(w, c, q)
    {
      var k :| 0 <= k < |r.requirementAny| && ServesSome(w, r.requirementAny[k], q);
      var g := r.requirementAny[k];
      var i :| 0 <= i < |g| && Serves(w, g[i], q);
      assert g[i] in r.requirementAny[k] && Wants(r, c, g[i]);
    }
  }

  // A defect lies within `n` levels below `c`: the host lacks it, and nobody offers it, or its
  // provider is unusable, or it can lead back to itself, or its provider requires something
  // flawed or has a group of which every option is flawed. A flaw need not be fatal: a cycle
  // through an option does no harm when another option serves.
  ghost predicate FlawedIn(w: World, c: string, n: nat)
    decreases n, 1
  {
    && n > 0 && c !in w.host
    && (|| !Provided(w, c) || Leads(w, c, c)
        || exists p: nat :: Chosen(w, c, p) && (!Usable(w, w.records[p]) || NeedsFlawed(w, w.records[p], c, n)))
  }

  ghost predicate NeedsFlawed(w: World, r: Descriptor, c: string, n: nat)
    requires n > 0
    decreases n, 0
  {
    || (exists d :: Requires(r, c, d) && FlawedIn(w, d, n - 1))
    || exists i :: 0 <= i < |r.requirementAny| && AllFlawedIn(w, r.requirementAny[i], n - 1)
  }

  ghost predicate AllFlawedIn(w: World, options: seq<string>, n: nat)
    decreases n, 2
  {
    forall k :: 0 <= k < |options| ==> FlawedIn(w, options[k], n)
  }

  ghost predicate Flawed(w: World, c: string) {
    exists n: nat :: FlawedIn(w, c, n)
  }

  ghost predicate AllFlawed(w: World, options: seq<string>) {
    forall k :: 0 <= k < |options| ==> Flawed(w, options[k])
  }

  lemma {:induction false} FlawedMore(w: World, c: string, n: nat, m: nat)
    requires FlawedIn(w, c, n) && n <= m
    ensures FlawedIn(w, c, m)
    decreases n
  {
    hide Provided, Leads, Chosen, Usable, Requires;
    if c in w.host || !Provided(w, c) || Leads(w, c, c) {
    } else {
      var p: nat :| Chosen(w, c, p) && (!Usable(w, w.records[p]) || NeedsFlawed(w, w.records[p], c, n));
      if Usable(w, w.records[p]) {
        NeedsMore(w, w.records[p], c, n, m);
      }
    }
  }

  lemma NeedsMore(w: World, r: Descriptor, c: string, n: nat, m: nat)
    requires 0 < n <= m && NeedsFlawed(w, r, c, n)
    ensures NeedsFlawed(w, r, c, m)
    decreases n, 0
  {
    hide FlawedIn, Requires;
    if d :| Requires(r, c, d) && FlawedIn(w, d, n - 1) {
      FlawedMore(w, d, n - 1, m - 1);
    } else {
      var i :| 0 <= i < |r.requirementAny| && AllFlawedIn(w, r.requirementAny[i], n - 1);
      forall k | 0 <= k < |r.requirementAny[i]|
        ensures FlawedIn(w, r.requirementAny[i][k], m - 1)
      {
        FlawedMore(w, r.requirementAny[i][k], n - 1, m - 1);
      }
    }
  }

  // Flawed options are flawed within a common depth.
  lemma {:induction false} CommonDepth(w: World, options: seq<string>) returns (n: nat)
    requires AllFlawed(w, options)
    ensures AllFlawedIn(w, options, n)
  {
    hide FlawedIn;
    n := 0;
    if options != [] {
      var m := |options| - 1;
      n := CommonDepth(w, options[..m]);
      assert Flawed(w, options[m]);
      var last: nat :| FlawedIn(w, options[m], last);
      var deep := if n < last then last else n;
      forall k | 0 <= k < |options|
        ensures FlawedIn(w, options[k], deep)
      {
        if k < m {
          assert FlawedIn(w, options[..m][k], n);
          FlawedMore(w, options[k], n, deep);
        } else {
          FlawedMore(w, options[k], last, deep);
        }
      }
      n := deep;
    }
  }

  // The five ways of being flawed.
  lemma FlawedMissing(w: World, c: string)
    requires c !in w.host && (!Provided(w, c) || Leads(w, c, c))
    ensures Flawed(w, c)
  {
    hide Provided, Leads;
    assert FlawedIn(w, c, 1);
  }

  lemma FlawedUnusable(w: World, c: string, p: nat)
    requires c !in w.host && Chosen(w, c, p) && !Usable(w, w.records[p])
    ensures Flawed(w, c)
  {
    hide Provided, Leads;
    assert FlawedIn(w, c, 1);
  }

  lemma FlawedByNeed(w: World, c: string, p: nat, d: string)
    requires c !in w.host && Chosen(w, c, p) && Requires(w.records[p], c, d) && Flawed(w, d)
    ensures Flawed(w, c)
  {
    hide Provided, Leads, Requires;
    var n: nat :| FlawedIn(w, d, n);
    assert NeedsFlawed(w, w.records[p], c, n + 1);
    assert FlawedIn(w, c, n + 1);
  }

  lemma FlawedByGroup(w: World, c: string, p: nat, i: nat)
    requires c !in w.host && Chosen(w, c, p)
    requires i < |w.records[p].requirementAny| && AllFlawed(w, w.records[p].requirementAny[i])
    ensures Flawed(w, c)
  {
    hide Provided, Leads, Requires;
    var n := CommonDepth(w, w.records[p].requirementAny[i]);
    assert NeedsFlawed(w, w.records[p], c, n + 1);
    assert FlawedIn(w, c, n + 1);
  }

  // ---- what can be provided ----

  // The host has `c`, or its chosen provider is usable and, within `n` levels, all it requires
  // can be provided and so can some option of each of its groups.
  ghost predicate ProvidableIn(w: World, c: string, n: nat)
    decreases n, 1
  {
    || c in w.host
    || (n > 0 && exists p: nat ::
          Chosen(w, c, p) && Usable(w, w.records[p]) && NeedsProvidable(w, w.records[p], c, n - 1))
  }

  ghost predicate NeedsProvidable(w: World, r: Descriptor, c: string, n: nat)
    decreases n, 3
  {
    && (forall d :: Requires(r, c, d) ==> ProvidableIn(w, d, n))
    && forall i :: 0 <= i < |r.requirementAny| ==> SomeProvidableIn(w, r.requirementAny[i], n)
  }

  ghost predicate SomeProvidableIn(w: World, options: seq<string>, n: nat)
    decreases n, 2
  {
    exists k :: 0 <= k < |options| && ProvidableIn(w, options[k], n)
  }

  ghost predicate Providable(w: World, c: string) {
    exists n: nat :: ProvidableIn(w, c, n)
  }

  ghost predicate SomeProvidable(w: World, options: seq<string>) {
    exists k :: 0 <= k < |options| && Providable(w, options[k])
  }

  lemma {:induction false} ProvidableMore(w: World, c: string, n: nat, m: nat)
    requires ProvidableIn(w, c, n) && n <= m
    ensures ProvidableIn(w, c, m)
    decreases n, 0
  {
    hide Chosen, Usable;
    if c !in w.host {
      var p: nat :| Chosen(w, c, p) && Usable(w, w.records[p]) && NeedsProvidable(w, w.records[p], c, n - 1);
      NeedsProvidableMore(w, w.records[p], c, n - 1, m - 1);
    }
  }

  lemma NeedsProvidableMore(w: World, r: Descriptor, c: string, n: nat, m: nat)
    requires NeedsProvidable(w, r, c, n) && n <= m
    ensures NeedsProvidable(w, r, c, m)
    decreases n, 1
  {
    hide ProvidableIn, Requires;
    forall d | Requires(r, c, d)
      ensures ProvidableIn(w, d, m)
    {
      ProvidableMore(w, d, n, m);
    }
    forall i | 0 <= i < |r.requirementAny|
      ensures SomeProvidableIn(w, r.requirementAny[i], m)
    {
      assert SomeProvidableIn(w, r.requirementAny[i], n);
      var k :| 0 <= k < |r.requirementAny[i]| && ProvidableIn(w, r.requirementAny[i][k], n);
      ProvidableMore(w, r.requirementAny[i][k], n, m);
    }
  }

  // The least depth within which `c` can be provided.
  lemma {:induction false} LeastDepth(w: World, c: string, n: nat) returns (m: nat)
    requires ProvidableIn(w, c, n)
    ensures m <= n && ProvidableIn(w, c, m) && (m > 0 ==> !ProvidableIn(w, c, m - 1))
  {
    hide ProvidableIn;
    if n == 0 || !ProvidableIn(w, c, n - 1) {
      m := n;
    } else {
      m := LeastDepth(w, c, n - 1);
    }
  }

  // `c` can be provided at a depth at which nothing being resolved can, so no cycle is met.
  ghost predicate Assured(w: World, active: set<string>, c: string) {
    exists n: nat :: ProvidableIn(w, c, n) && NoneIn(w, active, n)
  }

  ghost predicate NoneIn(w: World, active: set<string>, n: nat) {
    forall a :: a in active ==> !ProvidableIn(w, a, n)
  }

  ghost predicate AllAssured(w: World, active: set<string>, cs: seq<string>) {
    forall k :: 0 <= k < |cs| ==> Assured(w, active, cs[k])
  }

  ghost predicate SomeAssured(w: World, active: set<string>, options: seq<string>) {
    exists k :: 0 <= k < |options| && Assured(w, active, options[k])
  }

  // With nothing being resolved, providable is enough.
  lemma AssuredAtStart(w: World, c: string)
    ensures Assured(w, {}, c) <==> Providable(w, c)
  {
    hide ProvidableIn;
    if Providable(w, c) {
      var n: nat :| ProvidableIn(w, c, n);
      assert NoneIn(w, {}, n);
    }
  }

  // An assured capability outside the host has a usable provider, and while it is being
  // resolved all that provider needs is assured.
  lemma AssuredNeeds(w: World, active: set<string>, c: string)
    requires Assured(w, active, c) && c !in w.host
    ensures c !in active && Provided(w, c)
    ensures forall p: nat :: Chosen(w, c, p) ==>
              && Usable(w, w.records[p])
              && (forall d :: Requires(w.records[p], c, d) ==> Assured(w, active + {c}, d))
              && forall i :: 0 <= i < |w.records[p].requirementAny| ==>
                   SomeAssured(w, active + {c}, w.records[p].requirementAny[i])
  {
    hide Usable, Requires, IsBest, NeedsProvidable, NoneIn;
    var n: nat :| ProvidableIn(w, c, n) && NoneIn(w, active, n);
    var m := LeastDepth(w, c, n);
    var q: nat :| Chosen(w, c, q) && Usable(w, w.records[q]) && NeedsProvidable(w, w.records[q], c, m - 1);
    StillNone(w, active, c, n, m - 1);
    NotActive(w, active, c, n);
    AssuredBelow(w, active + {c}, w.records[q], c, m - 1);
    forall p: nat | Chosen(w, c, p)
      ensures p == q
    {
      BestUnique(w.records, c, w.architecture, p, q);
    }
  }

  lemma NotActive(w: World, active: set<string>, c: string, n: nat)
    requires ProvidableIn(w, c, n) && NoneIn(w, active, n)
    ensures c !in active
  {
    hide ProvidableIn;
  }

  lemma StillNone(w: World, active: set<string>, c: string, n: nat, m: nat)
    requires NoneIn(w, active, n) && m <= n && !ProvidableIn(w, c, m)
    ensures NoneIn(w, active + {c}, m)
  {
    hide ProvidableIn;
    forall a | a in active + {c}
      ensures !ProvidableIn(w, a, m)
    {
      if a in active && ProvidableIn(w, a, m) {
        ProvidableMore(w, a, m, n);
      }
    }
  }

  lemma AssuredBelow(w: World, active: set<string>, r: Descriptor, c: string, n: nat)
    requires NeedsProvidable(w, r, c, n) && NoneIn(w, active, n)
    ensures forall d :: Requires(r, c, d) ==> Assured(w, active, d)
    ensures forall i :: 0 <= i < |r.requirementAny| ==> SomeAssured(w, active, r.requirementAny[i])
  {
    hide ProvidableIn, Requires, NoneIn;
    forall i | 0 <= i < |r.requirementAny|
      ensures SomeAssured(w, active, r.requirementAny[i])
    {
      assert SomeProvidableIn(w, r.requirementAny[i], n);
      var k :| 0 <= k < |r.requirementAny[i]| && ProvidableIn(w, r.requirementAny[i][k], n);
      assert Assured(w, active, r.requirementAny[i][k]);
    }
  }

  // ---- what a blocker claims ----

  // A blocker reports a real defect of the catalogue on this host: a cycle is a real cycle, and
  // a group without alternative has only flawed options.
  ghost predicate Genuine(w: World, b: Blocker) {
    match b
    case Cycle(c) => c !in w.host && Leads(w, c, c)
    case NoProvider(c) => c !in w.host && !Provided(w, c)
    case WrongArchitecture(id, a) =>
      exists k :: 0 <= k < |w.records| && w.records[k].id == id && w.records[k].architecture == a &&
        !Compatible(w, w.records[k])
    case NotAvailable(id, a) =>
      exists k :: 0 <= k < |w.records| && w.records[k].id == id && w.records[k].availability == a != "available"
    case NoAlternative(options) => AllFlawed(w, options)
    case ApplicationArchitecture(a) => a != "any" && a != w.architecture
  }

  ghost predicate Honest(w: World, blocked: seq<Blocker>) {
    forall i :: 0 <= i < |blocked| ==> Genuine(w, blocked[i])
  }

  // ---- paths of requests ----

  // Everything being resolved leads to the capability asked for, unless the host has it.
  ghost predicate OnPath(w: World, active: set<string>, capability: string) {
    capability in w.host || forall a :: a in active ==> Leads(w, a, capability)
  }

  ghost predicate AllOnPath(w: World, active: set<string>, capabilities: seq<string>) {
    forall k :: 0 <= k < |capabilities| ==> OnPath(w, active, capabilities[k])
  }

  lemma PathExtends(w: World, active: set<string>, capability: string, d: string)
    requires capability !in w.host && OnPath(w, active, capability) && (d in w.host || Asks(w, capability, d))
    ensures OnPath(w, active + {capability}, d)
  {
    hide Asks;
    if d !in w.host {
      forall a | a in active + {capability}
        ensures Leads(w, a, d)
      {
        if a in active {
          LeadsOn(w, a, capability, d);
        }
        if a == capability {
          assert LeadsIn(w, a, d, 1);
        }
      }
    }
  }

  // Whatever the chosen provider wants continues the path.
  lemma AskedFor(w: World, active: set<string>, capability: string, p: nat)
    requires capability !in w.host && Chosen(w, capability, p) && OnPath(w, active, capability)
    ensures var r, now := w.records[p], active + {capability};
            && (capability != NATIVE && NeedsNative(r) ==> OnPath(w, now, NATIVE)) && AllOnPath(w, now, r.requirements)
            && forall k :: 0 <= k < |r.requirementAny| ==> AllOnPath(w, now, r.requirementAny[k])
  {
    hide OnPath, Chosen;
    var r := w.records[p];
    forall d | Wants(r, capability, d)
      ensures OnPath(w, active + {capability}, d)
    {
      PathExtends(w, active, capability, d);
    }
    assert capability != NATIVE && NeedsNative(r) ==> Wants(r, capability, NATIVE);
    assert forall k :: 0 <= k < |r.requirements| ==> Wants(r, capability, r.requirements[k]);
    forall k | 0 <= k < |r.requirementAny|
      ensures AllOnPath(w, active + {capability}, r.requirementAny[k])
    {
      var g := r.requirementAny[k];
      assert forall i :: 0 <= i < |g| ==> g[i] in r.requirementAny[k] && Wants(r, capability, g[i]);
    }
  }
}

// Choosing a provider: version order, scores, and the best provider of a capability.
module Ranking {

  datatype Descriptor = Descriptor(
    id: string, version: string, kind: string, architecture: string, delivery: string,
    runtime: string, availability: string,
    requirements: seq<string>, requirementAny: seq<seq<string>>,
    offers: seq<string>, assets: seq<string>)

  // ---- strict orders ----

  predicate TextLess(a: string, b: string) {
    if b == [] then false
    else if a == [] then true
    else a[0] < b[0] || (a[0] == b[0] && TextLess(a[1..], b[1..]))
  }

  lemma {:induction false} TextTrichotomy(a: string, b: string)
    ensures TextLess(a, b) || a == b || TextLess(b, a)
    ensures TextLess(a, b) ==> !TextLess(b, a) && a != b
  {
    if a != [] && b != [] {
      TextTrichotomy(a[1..], b[1..]);
      assert a == [a[0]] + a[1..] && b == [b[0]] + b[1..];
    }
  }

  lemma {:induction false} TextTransitive(a: string, b: string, c: string)
    requires TextLess(a, b) && TextLess(b, c)
    ensures TextLess(a, c)
  {
    if a != [] && a[0] == b[0] == c[0] {
      TextTransitive(a[1..], b[1..], c[1..]);
    }
  }

  // ---- version_parts ----

  const U64_MAX: nat := 0xFFFF_FFFF_FFFF_FFFF

  predicate IsDigit(c: char) {
    '0' <= c <= '9'
  }

  // The leading decimal number of a part, saturating at 2^64 - 1.
  function LeadingNumber(part: string, number: nat): (n: nat) {
    if part == [] || !IsDigit(part[0]) then number
    else
      var digit := part[0] as int - '0' as int;
      if number > (U64_MAX - digit) / 10 then U64_MAX
      else LeadingNumber(part[1..], number * 10 + digit)
  }

  function DotAt(text: string): (i: nat)
    ensures i <= |text| && (i < |text| ==> text[i] == '.')
  {
    if text == [] || text[0] == '.' then 0 else 1 + DotAt(text[1..])
  }

  function VersionParts(text: string): (parts: seq<nat>)
    decreases |text|
  {
    if text == [] then []
    else
      var end := DotAt(text);
      [LeadingNumber(text[..end], 0)] + (if end == |text| then [] else VersionParts(text[end + 1..]))
  }

  function Head(s: seq<nat>): nat { if s == [] then 0 else s[0] }
  function Tail(s: seq<nat>): seq<nat> { if s == [] then [] else s[1..] }

  // Lexicographic comparison after padding with zeros to equal length.
  predicate PartsLess(a: seq<nat>, b: seq<nat>)
    decreases |a| + |b|
  {
    if a == [] && b == [] then false
    else Head(a) < Head(b) || (Head(a) == Head(b) && PartsLess(Tail(a), Tail(b)))
  }

  predicate PartsEqual(a: seq<nat>, b: seq<nat>)
    decreases |a| + |b|
  {
    if a == [] && b == [] then true else Head(a) == Head(b) && PartsEqual(Tail(a), Tail(b))
  }

  lemma {:induction false} PartsTrichotomy(a: seq<nat>, b: seq<nat>)
    ensures PartsLess(a, b) || PartsEqual(a, b) || PartsLess(b, a)
    ensures PartsLess(a, b) ==> !PartsLess(b, a) && !PartsEqual(a, b)
    ensures PartsEqual(a, b) <==> PartsEqual(b, a)
    decreases |a| + |b|
  {
    if a != [] || b != [] {
      PartsTrichotomy(Tail(a), Tail(b));
    }
  }

  // Less-or-equal composes, and stays strict if either side is.
  lemma {:induction false} PartsTransitive(a: seq<nat>, b: seq<nat>, c: seq<nat>)
    ensures PartsEqual(a, b) && PartsEqual(b, c) ==> PartsEqual(a, c)
    ensures PartsLess(a, b) && (PartsLess(b, c) || PartsEqual(b, c)) ==> PartsLess(a, c)
    ensures PartsEqual(a, b) && PartsLess(b, c) ==> PartsLess(a, c)
    decreases |a| + |b| + |c|
  {
    if a != [] || b != [] || c != [] {
      PartsTransitive(Tail(a), Tail(b), Tail(c));
    }
  }

  // `version_less`: numeric parts first, the text when they tie.
  predicate VersionLess(a: string, b: string) {
    var x, y := VersionParts(a), VersionParts(b);
    if PartsEqual(x, y) then TextLess(a, b) else PartsLess(x, y)
  }

  lemma VersionTrichotomy(a: string, b: string)
    ensures VersionLess(a, b) || a == b || VersionLess(b, a)
    ensures VersionLess(a, b) ==> !VersionLess(b, a) && a != b
  {
    PartsTrichotomy(VersionParts(a), VersionParts(b));
    TextTrichotomy(a, b);
  }

  lemma VersionTransitive(a: string, b: string, c: string)
    requires VersionLess(a, b) && VersionLess(b, c)
    ensures VersionLess(a, c)
  {
    var x, y, z := VersionParts(a), VersionParts(b), VersionParts(c);
    PartsTrichotomy(x, y);
    PartsTrichotomy(y, z);
    PartsTrichotomy(x, z);
    PartsTransitive(x, y, z);
    if PartsEqual(x, y) && PartsEqual(y, z) {
      TextTransitive(a, b, c);
    }
  }

  // ---- best_provider ----

  function ArchitectureRank(d: Descriptor, host: string): (r: nat) {
    if d.architecture == host then 2 else if d.architecture == "any" then 1 else 0
  }

  function AvailabilityRank(d: Descriptor): (r: nat) {
    if d.availability == "available" then 2 else if d.availability == "external" then 1 else 0
  }

  function DeliveryRank(d: Descriptor): (r: nat) {
    if d.delivery == "builtin" || d.delivery == "embedded" || d.delivery == "https" then 2
    else if d.delivery == "user-supplied" then 1 else 0
  }

  // The three ranks as one number; each is below 3.
  function Score(d: Descriptor, host: string): (s: nat) {
    9 * ArchitectureRank(d, host) + 3 * AvailabilityRank(d) + DeliveryRank(d)
  }

  // `d` replaces `best` in the scan.
  predicate Better(d: Descriptor, best: Descriptor, host: string) {
    || Score(d, host) > Score(best, host)
    || (Score(d, host) == Score(best, host) && VersionLess(best.version, d.version))
    || (Score(d, host) == Score(best, host) && !VersionLess(d.version, best.version)
        && !VersionLess(best.version, d.version) && TextLess(d.id, best.id))
  }

  lemma BetterAsymmetric(a: Descriptor, b: Descriptor, host: string)
    requires Better(a, b, host)
    ensures !Better(b, a, host)
  {
    VersionTrichotomy(a.version, b.version);
    TextTrichotomy(a.id, b.id);
  }

  // Not being better is transitive, so a scan that keeps the best so far finds the best of all.
  lemma NotBetterTransitive(a: Descriptor, b: Descriptor, c: Descriptor, host: string)
    requires !Better(a, b, host) && !Better(b, c, host)
    ensures !Better(a, c, host)
  {
    hide VersionLess, TextLess;
    VersionTrichotomy(a.version, b.version);
    VersionTrichotomy(b.version, c.version);
    VersionTrichotomy(a.version, c.version);
    TextTrichotomy(a.id, b.id);
    TextTrichotomy(b.id, c.id);
    TextTrichotomy(a.id, c.id);
    if VersionLess(a.version, b.version) && VersionLess(b.version, c.version) {
      VersionTransitive(a.version, b.version, c.version);
    }
    if TextLess(b.id, a.id) && TextLess(c.id, b.id) {
      TextTransitive(c.id, b.id, a.id);
    }
  }

  // The provider of `capability` that no other provider beats, and that beats every earlier one.
  ghost predicate IsBest(records: seq<Descriptor>, n: nat, capability: string, host: string, i: nat)
    requires n <= |records|
  {
    && i < n && capability in records[i].offers
    && (forall k :: 0 <= k < n && capability in records[k].offers ==> !Better(records[k], records[i], host))
    && forall k :: 0 <= k < i && capability in records[k].offers ==> Better(records[i], records[k], host)
  }

  lemma BestUnique(records: seq<Descriptor>, capability: string, host: string, i: nat, j: nat)
    requires IsBest(records, |records|, capability, host, i) && IsBest(records, |records|, capability, host, j)
    ensures i == j
  {
    hide Better;
  }

  // A newcomer that beats the best so far beats everyone before it, and nobody before beats it.
  lemma BestReplaced(records: seq<Descriptor>, n: nat, capability: string, host: string, best: nat)
    requires n < |records| && IsBest(records, n, capability, host, best) && capability in records[n].offers
    requires Better(records[n], records[best], host)
    ensures IsBest(records, n + 1, capability, host, n)
  {
    hide Better;
    NotBetterSelf(records[n], host);
    BetterAsymmetric(records[n], records[best], host);
    forall k | 0 <= k < n && capability in records[k].offers
      ensures !Better(records[k], records[n], host) && Better(records[n], records[k], host)
    {
      NotBetterTransitive(records[k], records[best], records[n], host);
      if !Better(records[n], records[k], host) {
        NotBetterTransitive(records[n], records[k], records[best], host);
      }
    }
  }

  // `best_provider`: the first of the providers that none beats; -1 exactly when nobody provides the capability.
  method BestProvider(capability: string, records: seq<Descriptor>, host: string) returns (best: int)
    ensures -1 <= best < |records|
    ensures best == -1 <==> forall k :: 0 <= k < |records| ==> capability !in records[k].offers
    ensures best >= 0 ==> IsBest(records, |records|, capability, host, best)
  {
    hide Better;
    best := -1;
    var i := 0;
    while i < |records|
      invariant i <= |records| && -1 <= best < i
      invariant best == -1 <==> forall k :: 0 <= k < i ==> capability !in records[k].offers
      invariant best >= 0 ==> IsBest(records, i, capability, host, best)
    {
      if capability in records[i].offers {
        NotBetterSelf(records[i], host);
        if best < 0 {
          best := i;
        } else if Better(records[i], records[best], host) {
          BestReplaced(records, i, capability, host, best);
          best := i;
        }
      }
      i := i + 1;
    }
  }

  lemma NotBetterSelf(d: Descriptor, host: string)
    ensures !Better(d, d, host)
  {
    VersionTrichotomy(d.version, d.version);
    TextTrichotomy(d.id, d.id);
  }
}

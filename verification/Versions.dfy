// What the version order and the choice of a provider mean in numbers: dotted versions compare
// by their decimal parts, and the provider taken is the best ranked and, among equals, the newest.
module Versions {
  import opened Bytes
  import opened Ranking

  // ---- decimal numbers ----

  function DigitOf(c: char): (d: nat)
    requires IsDigit(c)
    ensures d < 10
  {
    c as int - '0' as int
  }

  predicate AllDigits(s: string) {
    forall i :: 0 <= i < |s| ==> IsDigit(s[i])
  }

  // The value of a string of decimal digits.
  function ValueOf(s: string): (n: nat)
    requires AllDigits(s)
  {
    if s == [] then 0 else 10 * ValueOf(s[..|s| - 1]) + DigitOf(s[|s| - 1])
  }

  function Decimal(n: nat): (s: string)
    ensures s != [] && AllDigits(s)
  {
    (if n < 10 then [] else Decimal(n / 10)) + ["0123456789"[n % 10]]
  }

  lemma {:induction false} DecimalValue(n: nat)
    ensures ValueOf(Decimal(n)) == n
  {
    var s := Decimal(n);
    DigitValue(n % 10);
    if n < 10 {
      assert s[..|s| - 1] == [];
    } else {
      DecimalValue(n / 10);
      assert s[..|s| - 1] == Decimal(n / 10);
    }
  }

  lemma DigitValue(d: nat)
    requires d < 10
    ensures IsDigit("0123456789"[d]) && DigitOf("0123456789"[d]) == d
  {
  }

  // The digits a part begins with.
  function LeadingDigits(part: string): (s: string)
    ensures AllDigits(s) && s <= part
  {
    if part == [] || !IsDigit(part[0]) then [] else [part[0]] + LeadingDigits(part[1..])
  }

  lemma {:induction false} LeadingExact(s: string, t: string)
    requires AllDigits(s) && (t == [] || !IsDigit(t[0]))
    ensures LeadingDigits(s + t) == s
  {
    if s == [] {
      assert s + t == t;
    } else {
      LeadingExact(s[1..], t);
      assert (s + t)[1..] == s[1..] + t;
    }
  }

  // Reading digits onto a number, first digit first.
  function ReadOn(s: string, n: nat): (r: nat)
    requires AllDigits(s)
    ensures r >= n
  {
    if s == [] then n else ReadOn(s[1..], 10 * n + DigitOf(s[0]))
  }

  lemma {:induction false} ReadOnSnoc(s: string, n: nat, c: char)
    requires AllDigits(s) && IsDigit(c)
    ensures AllDigits(s + [c]) && ReadOn(s + [c], n) == 10 * ReadOn(s, n) + DigitOf(c)
  {
    if s == [] {
      assert s + [c] == [c];
      assert ReadOn([c][1..], 10 * n + DigitOf(c)) == 10 * n + DigitOf(c);
    } else {
      ReadOnSnoc(s[1..], 10 * n + DigitOf(s[0]), c);
      assert (s + [c])[1..] == s[1..] + [c];
    }
  }

  lemma {:induction false} ReadOnValue(s: string)
    requires AllDigits(s)
    ensures ReadOn(s, 0) == ValueOf(s)
  {
    if s != [] {
      var m := |s| - 1;
      ReadOnValue(s[..m]);
      ReadOnSnoc(s[..m], 0, s[m]);
      assert s[..m] + [s[m]] == s;
    }
  }

  lemma {:induction false} NumberReads(part: string, n: nat)
    requires n <= U64_MAX
    ensures LeadingNumber(part, n) == Min(ReadOn(LeadingDigits(part), n), U64_MAX)
  {
    if part != [] && IsDigit(part[0]) {
      var d := DigitOf(part[0]);
      if n <= (U64_MAX - d) / 10 {
        NumberReads(part[1..], 10 * n + d);
      }
      assert LeadingDigits(part)[1..] == LeadingDigits(part[1..]);
    }
  }

  // A part counts as the decimal number it begins with, or 2^64 - 1 if that is larger.
  lemma PartValue(part: string)
    ensures LeadingNumber(part, 0) == Min(ValueOf(LeadingDigits(part)), U64_MAX)
  {
    NumberReads(part, 0);
    ReadOnValue(LeadingDigits(part));
  }

  lemma DecimalPart(n: nat, t: string)
    requires t == [] || !IsDigit(t[0])
    ensures LeadingNumber(Decimal(n) + t, 0) == Min(n, U64_MAX)
  {
    PartValue(Decimal(n) + t);
    LeadingExact(Decimal(n), t);
    DecimalValue(n);
  }

  // ---- dotted versions ----

  // Parts joined by dots.
  function Dotted(parts: seq<string>): (text: string) {
    if parts == [] then ""
    else if |parts| == 1 then parts[0]
    else parts[0] + "." + Dotted(parts[1..])
  }

  predicate Dotless(parts: seq<string>) {
    parts != [] && forall i :: 0 <= i < |parts| ==> '.' !in parts[i]
  }

  // Every text is a dotted version.
  lemma {:induction false} SplitAtDots(text: string) returns (parts: seq<string>)
    ensures Dotless(parts) && Dotted(parts) == text
    decreases |text|
  {
    var end := DotAt(text);
    FirstDot(text);
    if end == |text| {
      parts := [text];
    } else {
      var rest := SplitAtDots(text[end + 1..]);
      parts := [text[..end]] + rest;
      assert parts[1..] == rest;
    }
  }

  lemma {:induction false} FirstDot(text: string)
    ensures '.' !in text[..DotAt(text)]
  {
    if text != [] && text[0] != '.' {
      FirstDot(text[1..]);
      assert text[..DotAt(text)] == [text[0]] + text[1..][..DotAt(text[1..])];
    }
  }

  lemma {:induction false} DotAfter(s: string, t: string)
    requires '.' !in s && (t == [] || t[0] == '.')
    ensures DotAt(s + t) == |s|
  {
    if s == [] {
      assert s + t == t;
    } else {
      DotAfter(s[1..], t);
      assert (s + t)[1..] == s[1..] + t;
    }
  }

  // The number at position `k`; missing parts count as 0.
  function At(numbers: seq<nat>, k: nat): (n: nat) {
    if k < |numbers| then numbers[k] else 0
  }

  // The numbers of the parts, saturated.
  function Numbers(parts: seq<string>): (ns: seq<nat>)
    ensures |ns| == |parts|
  {
    seq(|parts|, i requires 0 <= i < |parts| => Min(ValueOf(LeadingDigits(parts[i])), U64_MAX))
  }

  lemma FirstPart(first: string, rest: string)
    requires '.' !in first
    ensures VersionParts(first + "." + rest) == [LeadingNumber(first, 0)] + VersionParts(rest)
  {
    hide LeadingNumber;
    var text := first + "." + rest;
    DotAfter(first, "." + rest);
    assert text == first + ("." + rest);
    assert text[..|first|] == first && text[|first| + 1..] == rest;
  }

  lemma OnlyPart(first: string)
    requires '.' !in first
    ensures VersionParts(first) == if first == [] then [] else [LeadingNumber(first, 0)]
  {
    hide LeadingNumber;
    DotAfter(first, []);
    assert first + [] == first && first[..|first|] == first;
  }

  // The parsed numbers of a version are those of its parts.
  lemma {:induction false} DottedNumbers(parts: seq<string>, k: nat)
    requires Dotless(parts)
    ensures At(VersionParts(Dotted(parts)), k) == At(Numbers(parts), k)
  {
    hide LeadingNumber, ValueOf, LeadingDigits, VersionParts;
    PartValue(parts[0]);
    if |parts| == 1 {
      EmptyPart();
      OnlyPart(parts[0]);
    } else {
      FirstPart(parts[0], Dotted(parts[1..]));
      if k > 0 {
        DottedNumbers(parts[1..], k - 1);
      }
    }
  }

  lemma EmptyPart()
    ensures LeadingDigits("") == "" && ValueOf("") == 0
  {
  }

  // ---- the order ----

  // At the first position where they differ, `a` is smaller.
  ghost predicate Older(a: seq<nat>, b: seq<nat>) {
    exists k: nat :: OlderAt(a, b, k)
  }

  ghost predicate SameNumbers(a: seq<nat>, b: seq<nat>) {
    forall k: nat :: At(a, k) == At(b, k)
  }

  lemma AtTail(s: seq<nat>, k: nat)
    ensures At(Tail(s), k) == At(s, k + 1) && At(s, 0) == Head(s)
  {
  }

  lemma {:induction false} PartsEqualExact(a: seq<nat>, b: seq<nat>)
    ensures PartsEqual(a, b) <==> SameNumbers(a, b)
    decreases |a| + |b|
  {
    if a != [] || b != [] {
      PartsEqualExact(Tail(a), Tail(b));
      SameTail(a, b);
    }
  }

  lemma SameTail(a: seq<nat>, b: seq<nat>)
    ensures SameNumbers(a, b) <==> Head(a) == Head(b) && SameNumbers(Tail(a), Tail(b))
  {
    hide At, Tail;
    AtTail(a, 0);
    AtTail(b, 0);
    if SameNumbers(a, b) {
      forall k: nat ensures At(Tail(a), k) == At(Tail(b), k) {
        AtTail(a, k);
        AtTail(b, k);
      }
    }
    if Head(a) == Head(b) && SameNumbers(Tail(a), Tail(b)) {
      forall k: nat ensures At(a, k) == At(b, k) {
        if k > 0 {
          AtTail(a, k - 1);
          AtTail(b, k - 1);
        }
      }
    }
  }

  lemma {:induction false} PartsLessExact(a: seq<nat>, b: seq<nat>)
    ensures PartsLess(a, b) <==> Older(a, b)
    decreases |a| + |b|
  {
    if a != [] || b != [] {
      PartsLessExact(Tail(a), Tail(b));
      OlderTail(a, b);
    }
  }

  // At position `k` `a` is smaller, and before it they agree.
  ghost predicate OlderAt(a: seq<nat>, b: seq<nat>, k: nat) {
    At(a, k) < At(b, k) && forall j :: 0 <= j < k ==> At(a, j) == At(b, j)
  }

  lemma OlderAtTail(a: seq<nat>, b: seq<nat>, k: nat)
    ensures OlderAt(a, b, k + 1) <==> Head(a) == Head(b) && OlderAt(Tail(a), Tail(b), k)
  {
    hide At, Tail, Head;
    AtTail(a, k);
    AtTail(b, k);
    forall j: nat
      ensures At(Tail(a), j) == At(a, j + 1) && At(Tail(b), j) == At(b, j + 1)
      ensures At(a, 0) == Head(a) && At(b, 0) == Head(b)
    {
      AtTail(a, j);
      AtTail(b, j);
    }
    if Head(a) == Head(b) && OlderAt(Tail(a), Tail(b), k) {
      forall j | 0 <= j < k + 1
        ensures At(a, j) == At(b, j)
      {
        assert j > 0 ==> At(Tail(a), j - 1) == At(Tail(b), j - 1);
      }
    }
  }

  lemma OlderTail(a: seq<nat>, b: seq<nat>)
    ensures Older(a, b) <==> Head(a) < Head(b) || (Head(a) == Head(b) && Older(Tail(a), Tail(b)))
  {
    hide At, Tail, Head;
    AtTail(a, 0);
    AtTail(b, 0);
    assert OlderAt(a, b, 0) <==> Head(a) < Head(b);
    if Older(a, b) {
      var k: nat :| OlderAt(a, b, k);
      if k > 0 {
        OlderAtTail(a, b, k - 1);
      }
    }
    if Head(a) == Head(b) && Older(Tail(a), Tail(b)) {
      var k: nat :| OlderAt(Tail(a), Tail(b), k);
      OlderAtTail(a, b, k);
    }
  }

  // `version_less` on any two versions: the numbers decide, and the text only when they agree.
  lemma NumericOrder(a: seq<string>, b: seq<string>)
    requires Dotless(a) && Dotless(b)
    ensures VersionLess(Dotted(a), Dotted(b)) <==>
            || Older(Numbers(a), Numbers(b))
            || (SameNumbers(Numbers(a), Numbers(b)) && TextLess(Dotted(a), Dotted(b)))
  {
    hide Numbers, VersionParts, Dotted, TextLess, Dotless, PartsLess, PartsEqual, At, Older;
    var x, y := VersionParts(Dotted(a)), VersionParts(Dotted(b));
    forall k: nat
      ensures At(x, k) == At(Numbers(a), k) && At(y, k) == At(Numbers(b), k)
    {
      DottedNumbers(a, k);
      DottedNumbers(b, k);
    }
    PartsEqualExact(x, y);
    PartsLessExact(x, y);
    PartsTrichotomy(x, y);
    OrderOfNumbers(x, y, Numbers(a), Numbers(b));
  }

  // Only the numbers at each position matter.
  lemma OrderOfNumbers(a: seq<nat>, b: seq<nat>, c: seq<nat>, d: seq<nat>)
    requires SameNumbers(a, c) && SameNumbers(b, d)
    ensures Older(a, b) <==> Older(c, d)
    ensures SameNumbers(a, b) <==> SameNumbers(c, d)
  {
    hide At;
    if k: nat :| OlderAt(a, b, k) {
      assert OlderAt(c, d, k);
    }
    if k: nat :| OlderAt(c, d, k) {
      assert OlderAt(a, b, k);
    }
  }

  // Two dotted decimal versions in numeric order are in version order.
  lemma DecimalOrder(a: seq<nat>, b: seq<nat>)
    requires a != [] && b != [] && Older(a, b)
    requires (forall i :: 0 <= i < |a| ==> a[i] <= U64_MAX) && forall i :: 0 <= i < |b| ==> b[i] <= U64_MAX
    ensures VersionLess(Dotted(Decimals(a)), Dotted(Decimals(b)))
  {
    hide VersionLess, Dotted, Older;
    DecimalNumbers(a);
    DecimalNumbers(b);
    NumericOrder(Decimals(a), Decimals(b));
  }

  function Decimals(ns: seq<nat>): (parts: seq<string>) {
    seq(|ns|, i requires 0 <= i < |ns| => Decimal(ns[i]))
  }

  lemma DecimalNumbers(ns: seq<nat>)
    requires ns != [] && forall i :: 0 <= i < |ns| ==> ns[i] <= U64_MAX
    ensures Dotless(Decimals(ns)) && Numbers(Decimals(ns)) == ns
  {
    hide ValueOf, LeadingDigits, Decimal;
    var parts := Decimals(ns);
    forall i | 0 <= i < |ns|
      ensures '.' !in parts[i] && Numbers(parts)[i] == ns[i]
    {
      DecimalValue(ns[i]);
      LeadingExact(parts[i], []);
      assert parts[i] + [] == parts[i];
    }
  }

  // `std::string` order: a proper prefix comes first, else the first difference decides.
  ghost predicate Precedes(a: string, b: string) {
    exists k: nat :: PrecedesAt(a, b, k)
  }

  ghost predicate PrecedesAt(a: string, b: string, k: nat) {
    k <= |a| && k < |b| && a[..k] == b[..k] && (k == |a| || a[k] < b[k])
  }

  lemma {:induction false} TextOrder(a: string, b: string)
    ensures TextLess(a, b) <==> Precedes(a, b)
  {
    if b == [] {
    } else if a == [] || a[0] < b[0] {
      assert PrecedesAt(a, b, 0);
    } else if a[0] == b[0] {
      TextOrder(a[1..], b[1..]);
      PrecedesTail(a, b);
    } else {
      assert forall k: nat :: PrecedesAt(a, b, k) && k > 0 ==> a[..k][0] == b[..k][0];
    }
  }

  lemma PrecedesTail(a: string, b: string)
    requires a != [] && b != [] && a[0] == b[0]
    ensures Precedes(a, b) <==> Precedes(a[1..], b[1..])
  {
    if Precedes(a, b) {
      var k: nat :| PrecedesAt(a, b, k);
      assert a[1..][..k - 1] == a[..k][1..] && b[1..][..k - 1] == b[..k][1..];
      assert PrecedesAt(a[1..], b[1..], k - 1);
    }
    if Precedes(a[1..], b[1..]) {
      var k: nat :| PrecedesAt(a[1..], b[1..], k);
      assert a[..k + 1] == [a[0]] + a[1..][..k] && b[..k + 1] == [b[0]] + b[1..][..k];
      assert PrecedesAt(a, b, k + 1);
    }
  }

  // ---- the provider taken ----

  // `x` is in a better class than `y`: the top class, then the middle one, then the rest.
  predicate Above(x: string, y: string, top: set<string>, middle: set<string>) {
    y !in top && (x in top || (x in middle && y !in middle))
  }

  predicate Level(x: string, y: string, top: set<string>, middle: set<string>) {
    !Above(x, y, top, middle) && !Above(y, x, top, middle)
  }

  const READY: set<string> := {"builtin", "embedded", "https"}

  // Architecture first, then availability, then delivery.
  ghost predicate Outranks(d: Descriptor, e: Descriptor, host: string) {
    || Above(d.architecture, e.architecture, {host}, {"any"})
    || (Level(d.architecture, e.architecture, {host}, {"any"}) && OutranksHere(d, e))
  }

  ghost predicate OutranksHere(d: Descriptor, e: Descriptor) {
    || Above(d.availability, e.availability, {"available"}, {"external"})
    || (Level(d.availability, e.availability, {"available"}, {"external"})
        && Above(d.delivery, e.delivery, READY, {"user-supplied"}))
  }

  lemma ScoreExact(d: Descriptor, e: Descriptor, host: string)
    ensures Score(d, host) > Score(e, host) <==> Outranks(d, e, host)
  {
  }

  // `a` is the version of `d` in parts.
  ghost predicate PartsOf(d: Descriptor, a: seq<string>) {
    Dotless(a) && Dotted(a) == d.version
  }

  // When the scan replaces `e` by `d`: by rank, then by the newer numbers, then by the text of
  // the version, then by the earlier name.
  lemma BetterExact(d: Descriptor, e: Descriptor, host: string, a: seq<string>, b: seq<string>)
    requires PartsOf(d, a) && PartsOf(e, b)
    ensures Better(d, e, host) <==>
            || Outranks(d, e, host)
            || (!Outranks(e, d, host)
                && (|| Older(Numbers(b), Numbers(a))
                    || (SameNumbers(Numbers(a), Numbers(b)) && Precedes(e.version, d.version))
                    || (d.version == e.version && Precedes(d.id, e.id))))
  {
    hide VersionLess, Score, Outranks, Older, Dotless, Dotted, SameNumbers, Precedes, TextLess;
    ScoreExact(d, e, host);
    ScoreExact(e, d, host);
    NumericOrder(b, a);
    SameNumbersBack(Numbers(a), Numbers(b));
    TextOrder(e.version, d.version);
    TextOrder(d.id, e.id);
    VersionTrichotomy(d.version, e.version);
  }

  lemma SameNumbersBack(a: seq<nat>, b: seq<nat>)
    ensures SameNumbers(a, b) <==> SameNumbers(b, a)
  {
    hide At;
  }

  // The provider taken is outranked by none, and none of its rank is numerically newer.
  lemma BestIsNewest(records: seq<Descriptor>, capability: string, host: string, i: nat, k: nat)
    requires IsBest(records, |records|, capability, host, i) && k < |records| && capability in records[k].offers
    ensures !Outranks(records[k], records[i], host)
    ensures !Outranks(records[i], records[k], host) ==> !Newer(records[k], records[i])
  {
    hide Better, Outranks, Older, PartsOf, SameNumbers, Precedes;
    var best, other := records[i], records[k];
    var a := SplitAtDots(best.version);
    var b := SplitAtDots(other.version);
    PartsFound(best, a);
    PartsFound(other, b);
    BetterExact(other, best, host, b, a);
    if Newer(other, best) {
      var c, d :| PartsOf(other, c) && PartsOf(best, d) && Older(Numbers(d), Numbers(c));
      BetterExact(other, best, host, c, d);
    }
  }

  lemma PartsFound(d: Descriptor, a: seq<string>)
    requires Dotless(a) && Dotted(a) == d.version
    ensures PartsOf(d, a)
  {
  }

  ghost predicate Newer(d: Descriptor, e: Descriptor) {
    exists a, b :: PartsOf(d, a) && PartsOf(e, b) && Older(Numbers(b), Numbers(a))
  }
}

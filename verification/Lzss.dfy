// The LZSS stream of ZLIVE003: the compressor with its hash chains, the decoder the format
// implies, and the round trip.
module Lzss {
  import opened Bytes

  const WINDOW: nat := 4096
  const MIN_MATCH: nat := 3
  const MAX_MATCH: nat := 18
  const CHAIN_LIMIT: nat := 128
  const HASH_SLOTS: nat := 65536

  datatype Token = Literal(byte: Byte) | Match(distance: nat, length: nat)

  // ---- what a token stream produces ----

  // Copy `length` bytes from `distance` back, byte by byte, so a copy may overlap itself.
  function CopyBack(out: seq<Byte>, distance: nat, length: nat): (r: seq<Byte>)
    requires 1 <= distance <= |out|
    ensures |r| == |out| + length
    decreases length
  {
    if length == 0 then out else CopyBack(out + [out[|out| - distance]], distance, length - 1)
  }

  predicate ValidToken(t: Token, available: nat) {
    t.Match? ==> 1 <= t.distance <= WINDOW && t.distance <= available && MIN_MATCH <= t.length <= MAX_MATCH
  }

  function Produced(out: seq<Byte>, t: Token): (r: seq<Byte>)
    requires ValidToken(t, |out|)
    ensures |r| > |out|
  {
    match t
    case Literal(b) => out + [b]
    case Match(d, n) => CopyBack(out, d, n)
  }

  // The tokens are valid one after the other and turn `out` into `result`.
  predicate Produces(out: seq<Byte>, ts: seq<Token>, result: seq<Byte>)
    decreases |ts|
  {
    if ts == [] then out == result
    else ValidToken(ts[0], |out|) && Produces(Produced(out, ts[0]), ts[1..], result)
  }

  lemma {:induction false} ProducesSnoc(out: seq<Byte>, ts: seq<Token>, mid: seq<Byte>, t: Token)
    requires Produces(out, ts, mid) && ValidToken(t, |mid|)
    ensures Produces(out, ts + [t], Produced(mid, t))
    decreases |ts|
  {
    if ts != [] {
      ProducesSnoc(Produced(out, ts[0]), ts[1..], mid, t);
      assert (ts + [t])[1..] == ts[1..] + [t];
    }
  }

  lemma {:induction false} ProducesGrows(out: seq<Byte>, ts: seq<Token>, result: seq<Byte>)
    requires Produces(out, ts, result)
    ensures |result| >= |out| + |ts|
    decreases |ts|
  {
    if ts != [] {
      ProducesGrows(Produced(out, ts[0]), ts[1..], result);
    }
  }

  // A match against earlier input, overlapping or not, reproduces the input.
  lemma {:induction false} CopyReproduces(input: seq<Byte>, p: nat, d: nat, n: nat)
    requires p + n <= |input| && 1 <= d <= p
    requires forall i :: p <= i < p + n ==> input[i - d] == input[i]
    ensures CopyBack(input[..p], d, n) == input[..p + n]
    decreases n
  {
    if n > 0 {
      assert input[p - d] == input[p];
      assert input[..p] + [input[..p][p - d]] == input[..p + 1];
      CopyReproduces(input, p + 1, d, n - 1);
    }
  }

  // ---- the byte format ----

  // A match as a 16-bit code.
  function Code(d: nat, n: nat): (c: U16)
    requires 1 <= d <= WINDOW && MIN_MATCH <= n <= MAX_MATCH
  {
    (d - 1) * 16 + (n - MIN_MATCH)
  }

  function TokenBytes(t: Token): (r: seq<Byte>)
    requires ValidToken(t, WINDOW)
  {
    match t
    case Literal(b) => [b]
    case Match(d, n) => Le16(Code(d, n))
  }

  ghost predicate AllValid(ts: seq<Token>) {
    forall i :: 0 <= i < |ts| ==> ValidToken(ts[i], WINDOW)
  }

  function TokensBytes(ts: seq<Token>): (r: seq<Byte>)
    requires AllValid(ts)
  {
    if ts == [] then [] else TokensBytes(ts[..|ts| - 1]) + TokenBytes(ts[|ts| - 1])
  }

  // Flag bits of a group, least significant first, 1 for a literal.
  function Flags(ts: seq<Token>): (f: nat)
    ensures f < Pow2(|ts|)
  {
    if ts == [] then 0
    else Flags(ts[..|ts| - 1]) + (if ts[|ts| - 1].Literal? then Pow2(|ts| - 1) else 0)
  }

  lemma Pow2Eight(n: nat)
    requires n <= 8
    ensures Pow2(n) <= 256
  {
    assert Pow2(8) == 256 by {
      assert Pow2(4) == 16;
    }
    if n < 8 {
      Pow2Less(n, 8);
    }
  }

  lemma {:induction false} Pow2Less(n: nat, m: nat)
    requires n <= m
    ensures Pow2(n) <= Pow2(m)
  {
    if n < m {
      Pow2Less(n, m - 1);
    }
  }

  function GroupBytes(ts: seq<Token>): (r: seq<Byte>)
    requires AllValid(ts) && |ts| <= 8
  {
    Pow2Eight(|ts|);
    [Flags(ts)] + TokensBytes(ts)
  }

  // A token stream in groups of eight.
  function Encoded(ts: seq<Token>): (r: seq<Byte>)
    requires AllValid(ts)
  {
    if ts == [] then [] else GroupBytes(ts[..Min(8, |ts|)]) + Encoded(ts[Min(8, |ts|)..])
  }

  lemma EncodedHead(ts: seq<Token>)
    requires AllValid(ts) && |ts| >= 8
    ensures AllValid(ts[..8]) && AllValid(ts[8..]) && Encoded(ts) == GroupBytes(ts[..8]) + Encoded(ts[8..])
  {
    hide GroupBytes;
  }

  lemma EncodedLast(g: seq<Token>)
    requires AllValid(g) && 0 < |g| <= 8
    ensures Encoded(g) == GroupBytes(g)
  {
    hide GroupBytes;
    assert g[..|g|] == g && g[|g|..] == [];
  }

  lemma ValidBoth(ts: seq<Token>, g: seq<Token>)
    requires AllValid(ts) && AllValid(g)
    ensures AllValid(ts + g)
  {
  }

  lemma SplitHead(ts: seq<Token>, g: seq<Token>)
    requires |ts| >= 8
    ensures (ts + g)[..8] == ts[..8] && (ts + g)[8..] == ts[8..] + g
  {
  }

  lemma Associates(a: seq<Byte>, b: seq<Byte>, c: seq<Byte>)
    ensures a + (b + c) == a + b + c
  {
  }

  // Appending a group after `k` full ones.
  lemma {:induction false} EncodedSnocGroup(ts: seq<Token>, g: seq<Token>, k: nat)
    requires AllValid(ts) && AllValid(g) && |ts| == 8 * k && 0 < |g| <= 8
    ensures AllValid(ts + g)
    ensures Encoded(ts + g) == Encoded(ts) + GroupBytes(g)
  {
    hide GroupBytes, Encoded, AllValid;
    NothingEncoded();
    ValidBoth(ts, g);
    if k == 0 {
      EncodedLast(g);
      assert ts == [] && ts + g == g;
    } else {
      EncodedHead(ts);
      EncodedHead(ts + g);
      SplitHead(ts, g);
      EncodedSnocGroup(ts[8..], g, k - 1);
      Associates(GroupBytes(ts[..8]), Encoded(ts[8..]), GroupBytes(g));
    }
  }

  // ---- the decoder ----

  datatype Cursor = Cursor(out: seq<Byte>, rest: seq<Byte>)

  function DecodeToken(c: Cursor, literal: bool): (r: Option<Cursor>)
    ensures r.Some? ==> |r.value.rest| < |c.rest| && |r.value.out| > |c.out|
  {
    if literal then
      if c.rest == [] then None else Some(Cursor(c.out + [c.rest[0]], c.rest[1..]))
    else if |c.rest| < 2 then None
    else
      var code := FromLe16(c.rest[..2]);
      var distance, length := code / 16 + 1, code % 16 + MIN_MATCH;
      if distance > |c.out| then None else Some(Cursor(CopyBack(c.out, distance, length), c.rest[2..]))
  }

  function DecodeGroup(c: Cursor, flags: nat, bits: nat, n: nat): (r: Option<Cursor>)
    ensures r.Some? ==> |r.value.rest| <= |c.rest|
    decreases bits
  {
    if bits == 0 || |c.out| >= n then Some(c)
    else match DecodeToken(c, flags % 2 == 1)
      case None => None
      case Some(d) => DecodeGroup(d, flags / 2, bits - 1, n)
  }

  function DecodeFrom(c: Cursor, n: nat): (r: Option<seq<Byte>>)
    ensures r.Some? ==> |r.value| == n
    decreases |c.rest|
  {
    if |c.out| >= n then (if |c.out| == n && c.rest == [] then Some(c.out) else None)
    else if c.rest == [] then None
    else match DecodeGroup(Cursor(c.out, c.rest[1..]), c.rest[0], 8, n)
      case None => None
      case Some(d) => DecodeFrom(d, n)
  }

  function Decode(stream: seq<Byte>, n: nat): (r: Option<seq<Byte>>) {
    DecodeFrom(Cursor([], stream), n)
  }

  lemma NothingDecodes(n: nat)
    ensures n > 0 ==> Decode([], n) == None
  {
  }

  // ---- the decoder inverts the format ----

  lemma DecodeTokenBytes(out: seq<Byte>, t: Token, rest: seq<Byte>)
    requires ValidToken(t, |out|) && ValidToken(t, WINDOW)
    ensures DecodeToken(Cursor(out, TokenBytes(t) + rest), t.Literal?) == Some(Cursor(Produced(out, t), rest))
  {
    hide Le16, FromLe16, CopyBack;
    var s := TokenBytes(t) + rest;
    match t
    case Literal(b) =>
      assert s[1..] == rest;
    case Match(d, n) =>
      CodeFields(d, n);
      assert s[..2] == Le16(Code(d, n)) && s[2..] == rest;
      Le16RoundTrip(Code(d, n));
  }

  lemma CodeFields(d: nat, n: nat)
    requires 1 <= d <= WINDOW && MIN_MATCH <= n <= MAX_MATCH
    ensures Code(d, n) / 16 + 1 == d && Code(d, n) % 16 + MIN_MATCH == n
  {
  }

  lemma {:induction false} TokensBytesHead(ts: seq<Token>)
    requires AllValid(ts) && ts != []
    ensures TokensBytes(ts) == TokenBytes(ts[0]) + TokensBytes(ts[1..])
  {
    hide TokenBytes, ValidToken;
    if |ts| > 1 {
      var p := ts[..|ts| - 1];
      TokensBytesHead(p);
      MiddleTokens(ts);
      Associates(TokenBytes(ts[0]), TokensBytes(p[1..]), TokenBytes(ts[|ts| - 1]));
    } else {
      assert ts[..0] == [] && ts[1..] == [];
    }
  }

  lemma MiddleTokens(ts: seq<Token>)
    requires |ts| > 1
    ensures ts[..|ts| - 1][1..] == ts[1..][..|ts| - 2] && ts[1..][|ts| - 2] == ts[|ts| - 1]
  {
  }

  lemma {:induction false} FlagsHead(ts: seq<Token>)
    requires ts != []
    ensures Flags(ts) == (if ts[0].Literal? then 1 else 0) + 2 * Flags(ts[1..])
    ensures Flags(ts) % 2 == 1 <==> ts[0].Literal?
    ensures Flags(ts) / 2 == Flags(ts[1..])
  {
    if |ts| > 1 {
      var p := ts[..|ts| - 1];
      FlagsHead(p);
      assert p[1..] == ts[1..][..|ts| - 2];
    } else {
      assert ts[..0] == [] && ts[1..] == [];
    }
  }

  lemma DecodeGroupStep(c: Cursor, flags: nat, bits: nat, n: nat, d: Cursor)
    requires bits > 0 && |c.out| < n && DecodeToken(c, flags % 2 == 1) == Some(d)
    ensures DecodeGroup(c, flags, bits, n) == DecodeGroup(d, flags / 2, bits - 1, n)
  {
  }

  lemma DecodeGroupDone(out: seq<Byte>, rest: seq<Byte>, bits: nat, n: nat)
    requires bits == 0 || |out| >= n
    ensures DecodeGroup(Cursor(out, TokensBytes([]) + rest), Flags([]), bits, n) == Some(Cursor(out, rest))
  {
    assert TokensBytes([]) + rest == rest;
  }

  lemma {:induction false} DecodeGroupBytes(out: seq<Byte>, ts: seq<Token>, result: seq<Byte>, rest: seq<Byte>,
    bits: nat, n: nat)
    requires AllValid(ts) && Produces(out, ts, result)
    requires |result| <= n && |ts| <= bits && (|ts| == bits || |result| == n)
    ensures DecodeGroup(Cursor(out, TokensBytes(ts) + rest), Flags(ts), bits, n) == Some(Cursor(result, rest))
    decreases |ts|
  {
    hide TokenBytes, TokensBytes, DecodeToken, DecodeGroup, CopyBack, Flags, Pow2, Produced;
    if ts == [] {
      DecodeGroupDone(out, rest, bits, n);
    } else {
      ProducesGrows(out, ts, result);
      TokensBytesHead(ts);
      FlagsHead(ts);
      var more := TokensBytes(ts[1..]) + rest;
      assert TokensBytes(ts) + rest == TokenBytes(ts[0]) + more;
      DecodeTokenBytes(out, ts[0], more);
      DecodeGroupStep(Cursor(out, TokensBytes(ts) + rest), Flags(ts), bits, n, Cursor(Produced(out, ts[0]), more));
      DecodeGroupBytes(Produced(out, ts[0]), ts[1..], result, rest, bits - 1, n);
    }
  }

  lemma {:induction false} ProducesSplit(out: seq<Byte>, ts: seq<Token>, k: nat, result: seq<Byte>)
    returns (mid: seq<Byte>)
    requires Produces(out, ts, result) && k <= |ts|
    ensures Produces(out, ts[..k], mid) && Produces(mid, ts[k..], result)
    decreases k
  {
    if k == 0 {
      mid := out;
    } else {
      mid := ProducesSplit(Produced(out, ts[0]), ts[1..], k - 1, result);
      assert ts[..k][1..] == ts[1..][..k - 1] && ts[1..][k - 1..] == ts[k..];
    }
  }

  lemma DecodeFromStep(c: Cursor, n: nat, d: Cursor)
    requires |c.out| < n && c.rest != [] && DecodeGroup(Cursor(c.out, c.rest[1..]), c.rest[0], 8, n) == Some(d)
    ensures DecodeFrom(c, n) == DecodeFrom(d, n)
  {
  }

  lemma DecodeNothing(out: seq<Byte>, result: seq<Byte>)
    requires Produces(out, [], result)
    ensures Encoded([]) == [] && DecodeFrom(Cursor(out, Encoded([])), |result|) == Some(result)
  {
  }

  // The first group of a stream: its flag byte, its tokens, the rest.
  lemma EncodedParts(ts: seq<Token>, k: nat)
    requires AllValid(ts) && ts != [] && k == Min(8, |ts|)
    ensures AllValid(ts[..k]) && AllValid(ts[k..])
    ensures |Encoded(ts)| > 0 && Encoded(ts)[0] == Flags(ts[..k])
    ensures Encoded(ts)[1..] == TokensBytes(ts[..k]) + Encoded(ts[k..])
  {
    hide TokensBytes, Flags, Pow2, ValidToken, GroupBytes;
    GroupParts(ts[..k], Encoded(ts[k..]));
  }

  lemma GroupParts(g: seq<Token>, rest: seq<Byte>)
    requires AllValid(g) && |g| <= 8
    ensures |GroupBytes(g) + rest| > 0
    ensures (GroupBytes(g) + rest)[0] == Flags(g) && (GroupBytes(g) + rest)[1..] == TokensBytes(g) + rest
  {
    hide TokensBytes, Flags, Pow2;
  }

  // Decoding an encoded token stream gives what the tokens produce.
  lemma {:induction false} DecodeEncoded(out: seq<Byte>, ts: seq<Token>, result: seq<Byte>)
    requires AllValid(ts) && Produces(out, ts, result)
    ensures DecodeFrom(Cursor(out, Encoded(ts)), |result|) == Some(result)
    decreases |ts|
  {
    hide TokensBytes, Flags, Pow2, DecodeGroup, Encoded, Produces, DecodeFrom, ValidToken;
    if ts == [] {
      DecodeNothing(out, result);
    } else {
      ProducesGrows(out, ts, result);
      var k := Min(8, |ts|);
      var g, rest := ts[..k], ts[k..];
      var mid := ProducesSplit(out, ts, k, result);
      ProducesGrows(mid, rest, result);
      var stream := Encoded(ts);
      EncodedParts(ts, k);
      DecodeGroupBytes(out, g, mid, Encoded(rest), 8, |result|);
      DecodeFromStep(Cursor(out, stream), |result|, Cursor(mid, Encoded(rest)));
      DecodeEncoded(mid, rest, result);
    }
  }

  // ---- the compressor ----

  // static_cast<std::int32_t> of a position.
  function ToInt32(p: nat): (r: int)
    ensures r <= p && (p < 0x8000_0000 ==> r == p)
    ensures -0x8000_0000 <= r < 0x8000_0000 && (p - r) % 0x1_0000_0000 == 0
  {
    var w := p % 0x1_0000_0000;
    if w < 0x8000_0000 then w else w - 0x1_0000_0000
  }

  function HashAt(input: seq<Byte>, p: nat): (h: nat)
    requires p + MIN_MATCH <= |input|
    ensures h < HASH_SLOTS
  {
    var w: seq<int> := input;
    ((w[p] * 251 + w[p + 1]) * 251 + w[p + 2]) % HASH_SLOTS
  }

  // Every chain link leads to a strictly earlier position.
  ghost predicate ChainsDescend(head: array<int>, previous: array<int>, bound: nat)
    reads head, previous
  {
    && (forall h :: 0 <= h < head.Length ==> head[h] < bound)
    && (forall q :: 0 <= q < previous.Length ==> previous[q] < q)
  }

  // The chain tables: the newest position of each hash, and the position before each.
  datatype Chains = Chains(head: seq<int>, previous: seq<int>)

  predicate Tables(input: seq<Byte>, c: Chains) {
    |c.head| == HASH_SLOTS && |c.previous| == |input|
  }

  function Fresh(input: seq<Byte>): (c: Chains)
    ensures Tables(input, c)
  {
    Chains(seq(HASH_SLOTS, _ => -1), seq(|input|, _ => -1))
  }

  function Linked(input: seq<Byte>, c: Chains, p: nat): (r: Chains)
    requires Tables(input, c)
    ensures Tables(input, r)
  {
    if p + MIN_MATCH > |input| then c else
      var h := HashAt(input, p);
      Chains(c.head[h := ToInt32(p)], c.previous[p := c.head[h]])
  }

  function LinkedRun(input: seq<Byte>, c: Chains, p: nat, n: nat): (r: Chains)
    requires Tables(input, c)
    ensures Tables(input, r)
  {
    if n == 0 then c else Linked(input, LinkedRun(input, c, p, n - 1), p + n - 1)
  }

  // The tables once every position below `p` is in them.
  function ChainsAt(input: seq<Byte>, p: nat): (c: Chains)
    ensures Tables(input, c)
  {
    LinkedRun(input, Fresh(input), 0, p)
  }

  lemma {:induction false} ChainsAdvance(input: seq<Byte>, p: nat, n: nat)
    ensures LinkedRun(input, ChainsAt(input, p), p, n) == ChainsAt(input, p + n)
  {
    hide Linked, Fresh;
    if n > 0 {
      ChainsAdvance(input, p, n - 1);
    }
  }

  method Insert(input: seq<Byte>, head: array<int>, previous: array<int>, p: nat)
    requires head.Length == HASH_SLOTS && previous.Length == |input| && head != previous
    requires ChainsDescend(head, previous, p)
    modifies head, previous
    ensures ChainsDescend(head, previous, p + 1)
    ensures Chains(head[..], previous[..]) == Linked(input, old(Chains(head[..], previous[..])), p)
  {
    hide HashAt;
    if p + MIN_MATCH > |input| {
      return;
    }
    var hash := HashAt(input, p);
    previous[p] := head[hash];
    head[hash] := ToInt32(p);
  }

  method InsertRun(input: seq<Byte>, head: array<int>, previous: array<int>, p: nat, length: nat)
    requires head.Length == HASH_SLOTS && previous.Length == |input| && head != previous
    requires ChainsDescend(head, previous, p)
    modifies head, previous
    ensures ChainsDescend(head, previous, p + length)
    ensures Chains(head[..], previous[..]) == LinkedRun(input, old(Chains(head[..], previous[..])), p, length)
  {
    hide Linked;
    var consumed := 0;
    while consumed < length
      invariant consumed <= length && ChainsDescend(head, previous, p + consumed)
      invariant Chains(head[..], previous[..]) == LinkedRun(input, old(Chains(head[..], previous[..])), p, consumed)
    {
      Insert(input, head, previous, p + consumed);
      consumed := consumed + 1;
    }
  }

  ghost predicate Repeats(input: seq<Byte>, p: nat, d: nat, n: nat) {
    && 1 <= d <= p && p + n <= |input|
    && forall i :: p <= i < p + n ==> input[i - d] == input[i]
  }

  function Limit(input: seq<Byte>, p: nat): (n: nat)
    requires p <= |input|
  {
    if |input| - p < MAX_MATCH then |input| - p else MAX_MATCH
  }

  // `n` is the length of the common run of the input at `source` and at `p`.
  ghost predicate IsRun(input: seq<Byte>, source: nat, p: nat, n: nat)
    requires source < p <= |input|
  {
    n <= Limit(input, p) && Repeats(input, p, p - source, n) &&
      (n < Limit(input, p) ==> input[source + n] != input[p + n])
  }

  function RunFrom(input: seq<Byte>, source: nat, p: nat, n: nat): (r: nat)
    requires source < p <= |input| && n <= Limit(input, p)
    ensures n <= r <= Limit(input, p)
    decreases Limit(input, p) - n
  {
    if n < Limit(input, p) && input[source + n] == input[p + n] then RunFrom(input, source, p, n + 1) else n
  }

  function RunLength(input: seq<Byte>, source: nat, p: nat): (r: nat)
    requires source < p <= |input|
    ensures r <= Limit(input, p)
  {
    RunFrom(input, source, p, 0)
  }

  // The inner comparison loop.
  method MatchLength(input: seq<Byte>, source: nat, p: nat) returns (n: nat)
    requires source < p <= |input|
    ensures IsRun(input, source, p, n) && n == RunLength(input, source, p)
  {
    var limit := Limit(input, p);
    n := 0;
    while n < limit && input[source + n] == input[p + n]
      invariant n <= limit && Repeats(input, p, p - source, n)
      invariant RunFrom(input, source, p, n) == RunLength(input, source, p)
    {
      n := n + 1;
    }
  }

  lemma {:induction false} RunFromIs(input: seq<Byte>, source: nat, p: nat, n: nat)
    requires source < p <= |input| && n <= Limit(input, p) && Repeats(input, p, p - source, n)
    ensures IsRun(input, source, p, RunFrom(input, source, p, n))
    decreases Limit(input, p) - n
  {
    if n < Limit(input, p) && input[source + n] == input[p + n] {
      RunFromIs(input, source, p, n + 1);
    }
  }

  // The positions the search visits from candidate `c`, at most `k` of them.
  function Chain(previous: seq<int>, c: int, k: nat, p: nat): (cs: seq<nat>)
    requires p <= |previous|
    ensures forall i :: 0 <= i < |cs| ==> cs[i] < p && p - cs[i] <= WINDOW
    decreases k
  {
    if k == 0 || c < 0 || c >= p || p - c > WINDOW then [] else [c] + Chain(previous, previous[c], k - 1, p)
  }

  // The search at its `visited`th position: the next one, or the end.
  lemma ChainStep(previous: seq<int>, c: nat, k: nat, p: nat, all: seq<nat>, visited: nat)
    requires c < p <= |previous| && k > 0 && visited <= |all| && all[visited..] == Chain(previous, c, k, p)
    ensures p - c > WINDOW ==> visited == |all|
    ensures p - c <= WINDOW ==>
      visited < |all| && all[visited] == c && all[visited + 1..] == Chain(previous, previous[c], k - 1, p)
  {
    assert Chain(previous, c, k, p) == if p - c > WINDOW then [] else [c] + Chain(previous, previous[c], k - 1, p);
    if p - c <= WINDOW {
      assert all[visited..][0] == c && all[visited..][1..] == all[visited + 1..];
    }
  }

  lemma ChainEnd(previous: seq<int>, c: int, k: nat, p: nat, all: seq<nat>, visited: nat)
    requires p <= |previous| && (c < 0 || k == 0) && visited <= |all| && all[visited..] == Chain(previous, c, k, p)
    ensures visited == |all|
  {
  }

  // The best match so far; length zero when there is none.
  datatype Best = Best(length: nat, distance: nat)

  function Improved(input: seq<Byte>, p: nat, b: Best, c: nat): (r: Best)
    requires c < p <= |input|
  {
    var n := RunLength(input, c, p);
    if n > b.length && n >= MIN_MATCH then Best(n, p - c) else b
  }

  // The longest usable match among the positions `cs`, the first of equally long ones.
  function BestOf(input: seq<Byte>, p: nat, cs: seq<nat>): (b: Best)
    requires p <= |input| && forall i :: 0 <= i < |cs| ==> cs[i] < p
  {
    if cs == [] then Best(0, 0) else Improved(input, p, BestOf(input, p, cs[..|cs| - 1]), cs[|cs| - 1])
  }

  // A usable match, or none; and no position in `cs` offers a longer one.
  lemma {:induction false} BestLongest(input: seq<Byte>, p: nat, cs: seq<nat>)
    requires p <= |input| && forall i :: 0 <= i < |cs| ==> cs[i] < p && p - cs[i] <= WINDOW
    ensures var b := BestOf(input, p, cs);
            && (b.length > 0 ==> MIN_MATCH <= b.length <= MAX_MATCH && b.distance <= WINDOW)
            && (b.length > 0 ==> Repeats(input, p, b.distance, b.length))
            && forall i :: 0 <= i < |cs| ==>
              RunLength(input, cs[i], p) < MIN_MATCH || RunLength(input, cs[i], p) <= b.length
  {
    hide Repeats, RunLength;
    if cs != [] {
      BestLongest(input, p, cs[..|cs| - 1]);
      RunUsable(input, cs[|cs| - 1], p);
    }
  }

  lemma RunUsable(input: seq<Byte>, c: nat, p: nat)
    requires c < p <= |input|
    ensures RunLength(input, c, p) <= MAX_MATCH && Repeats(input, p, p - c, RunLength(input, c, p))
  {
    RunFromIs(input, c, p, 0);
  }

  // Once a match is as long as any can be, the rest of the chain changes nothing.
  lemma {:induction false} BestStays(input: seq<Byte>, p: nat, cs: seq<nat>, k: nat)
    requires p <= |input| && (forall i :: 0 <= i < |cs| ==> cs[i] < p) && k <= |cs|
    requires BestOf(input, p, cs[..k]).length == Limit(input, p)
    ensures BestOf(input, p, cs) == BestOf(input, p, cs[..k])
    decreases |cs| - k
  {
    hide RunLength;
    if k == |cs| {
      assert cs[..k] == cs;
    } else {
      assert cs[..k + 1][..k] == cs[..k];
      BestStays(input, p, cs, k + 1);
    }
  }

  lemma BestNone(input: seq<Byte>, p: nat)
    requires p <= |input|
    ensures BestOf(input, p, []) == Best(0, 0)
  {
  }

  lemma BestSnoc(input: seq<Byte>, p: nat, cs: seq<nat>, k: nat)
    requires p <= |input| && (forall i :: 0 <= i < |cs| ==> cs[i] < p) && k < |cs|
    ensures BestOf(input, p, cs[..k + 1]) == Improved(input, p, BestOf(input, p, cs[..k]), cs[k])
  {
    hide RunLength;
    assert cs[..k + 1][..k] == cs[..k];
  }

  // The candidates for position `p`, newest first.
  function Candidates(input: seq<Byte>, c: Chains, p: nat): (cs: seq<nat>)
    requires Tables(input, c) && p <= |input|
    ensures forall i :: 0 <= i < |cs| ==> cs[i] < p && p - cs[i] <= WINDOW
  {
    if p + MIN_MATCH > |input| then [] else Chain(c.previous, c.head[HashAt(input, p)], CHAIN_LIMIT, p)
  }

  // The search along one hash chain: the longest usable match it offers, the nearest of equally
  // long ones.
  method FindMatch(input: seq<Byte>, head: array<int>, previous: array<int>, p: nat)
    returns (length: nat, distance: nat)
    requires head.Length == HASH_SLOTS && previous.Length == |input| && p < |input|
    requires ChainsDescend(head, previous, p)
    ensures Best(length, distance) == BestOf(input, p, Candidates(input, Chains(head[..], previous[..]), p))
  {
    hide HashAt, Chain, RunLength, IsRun, BestOf;
    BestNone(input, p);
    length, distance := 0, 0;
    if p + MIN_MATCH > |input| {
      return;
    }
    var candidate := head[HashAt(input, p)];
    var visited := 0;
    ghost var all := Chain(previous[..], candidate, CHAIN_LIMIT, p);
    assert all[0..] == all;
    while candidate >= 0 && visited < CHAIN_LIMIT
      invariant candidate < p && visited <= |all| && visited <= CHAIN_LIMIT
      invariant all[visited..] == Chain(previous[..], candidate, CHAIN_LIMIT - visited, p)
      invariant Best(length, distance) == BestOf(input, p, all[..visited])
      decreases CHAIN_LIMIT - visited
    {
      var d := p - candidate;
      ChainStep(previous[..], candidate, CHAIN_LIMIT - visited, p, all, visited);
      if d > WINDOW {
        assert all[..visited] == all;
        return;
      }
      var n := MatchLength(input, candidate, p);
      BestSnoc(input, p, all, visited);
      if n > length && n >= MIN_MATCH {
        length, distance := n, d;
        if length == MAX_MATCH {
          BestStays(input, p, all, visited + 1);
          return;
        }
      }
      candidate := previous[candidate];
      visited := visited + 1;
    }
    ChainEnd(previous[..], candidate, CHAIN_LIMIT - visited, p, all, visited);
    assert all[..visited] == all;
  }

  // ---- the greedy parse ----

  function ChosenToken(input: seq<Byte>, c: Chains, p: nat): (t: Token)
    requires Tables(input, c) && p < |input|
  {
    var b := BestOf(input, p, Candidates(input, c, p));
    if b.length >= MIN_MATCH then Match(b.distance, b.length) else Literal(input[p])
  }

  function Covered(t: Token): (n: nat) {
    if t.Literal? then 1 else t.length
  }

  lemma ChosenCovers(input: seq<Byte>, c: Chains, p: nat)
    requires Tables(input, c) && p < |input|
    ensures var t := ChosenToken(input, c, p);
            ValidToken(t, WINDOW) && Covers(input, p, t, p + Covered(t))
  {
    hide Candidates, BestOf;
    BestLongest(input, p, Candidates(input, c, p));
  }

  // The tokens the compressor emits from position `p` on.
  function Tokens(input: seq<Byte>, p: nat): (ts: seq<Token>)
    decreases |input| - p
  {
    if p >= |input| then []
    else
      ChosenCovers(input, ChainsAt(input, p), p);
      var t := ChosenToken(input, ChainsAt(input, p), p);
      [t] + Tokens(input, p + Covered(t))
  }

  lemma {:induction false} TokensValid(input: seq<Byte>, p: nat)
    ensures AllValid(Tokens(input, p))
    decreases |input| - p
  {
    hide ChosenToken, ChainsAt, Covers, ValidToken;
    if p < |input| {
      var t := ChosenToken(input, ChainsAt(input, p), p);
      ChosenCovers(input, ChainsAt(input, p), p);
      CoversFacts(input, p, t, p + Covered(t));
      TokensValid(input, p + Covered(t));
    }
  }

  // From `p` the parse emits `ts` and goes on at `q`.
  ghost predicate Parses(input: seq<Byte>, p: nat, ts: seq<Token>, q: nat) {
    ts + Tokens(input, q) == Tokens(input, p)
  }

  // The arrays are the chain tables of position `p`.
  ghost predicate InStep(input: seq<Byte>, head: array<int>, previous: array<int>, p: nat)
    reads head, previous
  {
    ChainsDescend(head, previous, p) && Chains(head[..], previous[..]) == ChainsAt(input, p)
  }

  // What the compressor makes of an input.
  function Compressed(input: seq<Byte>): (output: seq<Byte>) {
    TokensValid(input, 0);
    Encoded(Tokens(input, 0))
  }

  lemma TokensBytesSnoc(ts: seq<Token>, t: Token)
    requires AllValid(ts) && ValidToken(t, WINDOW)
    ensures AllValid(ts + [t]) && TokensBytes(ts + [t]) == TokensBytes(ts) + TokenBytes(t)
    ensures Flags(ts + [t]) == Flags(ts) + (if t.Literal? then Pow2(|ts|) else 0)
  {
    assert (ts + [t])[..|ts|] == ts;
  }

  ghost predicate Covers(input: seq<Byte>, p: nat, t: Token, q: nat) {
    && p < q <= |input|
    && (t.Literal? ==> q == p + 1 && t.byte == input[p])
    && (t.Match? ==> q == p + t.length && Repeats(input, p, t.distance, t.length))
    && (t.Match? ==> MIN_MATCH <= t.length <= MAX_MATCH && t.distance <= WINDOW)
  }

  // One token at position `p`: a match when the chain offers one, else a literal.
  method CompressToken(input: seq<Byte>, head: array<int>, previous: array<int>, p: nat)
    returns (position: nat, bytes: seq<Byte>, t: Token)
    requires head.Length == HASH_SLOTS && previous.Length == |input| && head != previous && p < |input|
    requires InStep(input, head, previous, p)
    modifies head, previous
    ensures InStep(input, head, previous, position)
    ensures t == ChosenToken(input, ChainsAt(input, p), p) && position == p + Covered(t)
    ensures Covers(input, p, t, position) && ValidToken(t, WINDOW)
    ensures bytes == TokenBytes(t) && |bytes| <= position - p
  {
    hide ChainsAt, LinkedRun, BestOf, Candidates, Repeats;
    ChosenCovers(input, ChainsAt(input, p), p);
    var length, distance := FindMatch(input, head, previous, p);
    ChainsAdvance(input, p, if length >= MIN_MATCH then length else 1);
    if length >= MIN_MATCH {
      t := Match(distance, length);
      var code := (distance - 1) * 16 + (length - MIN_MATCH);
      bytes := [code % 0x100, code / 0x100];
      InsertRun(input, head, previous, p, length);
      position := p + length;
    } else {
      t := Literal(input[p]);
      bytes := [input[p]];
      LinkedOne(input, ChainsAt(input, p), p);
      Insert(input, head, previous, p);
      position := p + 1;
    }
  }

  lemma LinkedOne(input: seq<Byte>, c: Chains, p: nat)
    requires Tables(input, c)
    ensures LinkedRun(input, c, p, 1) == Linked(input, c, p)
  {
    hide Linked;
    assert LinkedRun(input, c, p, 0) == c;
  }

  lemma TokenProduces(input: seq<Byte>, p: nat, t: Token, q: nat)
    requires p <= |input| && Covers(input, p, t, q)
    ensures ValidToken(t, p) && Produced(input[..p], t) == input[..q]
  {
    if t.Literal? {
      assert input[..p] + [input[p]] == input[..q];
    } else {
      CopyReproduces(input, p, t.distance, t.length);
    }
  }

  lemma StepToken(input: seq<Byte>, p: nat, done: seq<Token>, ts: seq<Token>, t: Token, q: nat)
    requires p <= |input| && Covers(input, p, t, q) && AllValid(done + ts) && Produces([], done + ts, input[..p])
    ensures AllValid(done + (ts + [t])) && Produces([], done + (ts + [t]), input[..q])
  {
    hide Produces, Produced;
    assert done + (ts + [t]) == (done + ts) + [t];
    TokenProduces(input, p, t, q);
    ProducesSnoc([], done + ts, input[..p], t);
  }

  // The tokens `ts` of a group take the parse from `p` to `q`, after those `done` before it.
  ghost predicate Grouped(input: seq<Byte>, done: seq<Token>, ts: seq<Token>, p: nat, q: nat)
    requires q <= |input|
  {
    AllValid(ts) && AllValid(done + ts) && Produces([], done + ts, input[..q]) && Parses(input, p, ts, q)
  }

  lemma GroupStart(input: seq<Byte>, done: seq<Token>, p: nat)
    requires p <= |input| && AllValid(done) && Produces([], done, input[..p])
    ensures Grouped(input, done, [], p, p)
  {
    hide Produces;
    assert done + [] == done;
    ParsesNothing(input, p);
  }

  lemma GroupSnoc(input: seq<Byte>, done: seq<Token>, ts: seq<Token>, p: nat, q: nat)
    requires q < |input| && Grouped(input, done, ts, p, q)
    ensures var t := ChosenToken(input, ChainsAt(input, q), q);
            q + Covered(t) <= |input| && Grouped(input, done, ts + [t], p, q + Covered(t))
  {
    hide Produces, Parses, ChosenToken, ChainsAt;
    var t := ChosenToken(input, ChainsAt(input, q), q);
    ChosenCovers(input, ChainsAt(input, q), q);
    StepToken(input, q, done, ts, t, q + Covered(t));
    ParsesSnoc(input, p, ts, q);
  }

  // One flag group: up to eight tokens from position `p`.
  method CompressGroup(input: seq<Byte>, head: array<int>, previous: array<int>, p: nat, ghost done: seq<Token>)
    returns (position: nat, flags: Byte, bytes: seq<Byte>, ghost ts: seq<Token>)
    requires head.Length == HASH_SLOTS && previous.Length == |input| && head != previous && p < |input|
    requires InStep(input, head, previous, p)
    requires AllValid(done) && Produces([], done, input[..p])
    modifies head, previous
    ensures p < position <= |input| && InStep(input, head, previous, position)
    ensures 0 < |ts| <= 8 && (|ts| == 8 || position == |input|)
    ensures Grouped(input, done, ts, p, position) && AllValid(ts)
    ensures flags == Flags(ts) && bytes == TokensBytes(ts) && |bytes| <= position - p
  {
    hide TokensBytes, Flags, Pow2, InStep, AllValid, Covers, ValidToken, ChainsAt, ChosenToken, Grouped, TokenBytes;
    NothingEncoded();
    position, flags, bytes, ts := p, 0, [], [];
    GroupStart(input, done, p);
    var bit := 0;
    while bit < 8 && position < |input|
      invariant p <= position <= |input| && InStep(input, head, previous, position)
      invariant bit == |ts| <= 8 && (bit == 0 <==> position == p)
      invariant Grouped(input, done, ts, p, position) && AllValid(ts)
      invariant flags == Flags(ts) && bytes == TokensBytes(ts) && |bytes| <= position - p
      decreases 8 - bit
    {
      var next, code, t := CompressToken(input, head, previous, position);
      GroupSnoc(input, done, ts, p, position);
      TokensBytesSnoc(ts, t);
      CoversFacts(input, position, t, next);
      ts := ts + [t];
      Pow2Eight(|ts|);
      if t.Literal? {
        flags := flags + Pow2(bit);
      }
      bytes := bytes + code;
      position := next;
      bit := bit + 1;
    }
  }

  lemma NothingEncoded()
    ensures AllValid([]) && TokensBytes([]) == [] && Flags([]) == 0 && Encoded([]) == []
  {
  }

  lemma GroupedValid(input: seq<Byte>, done: seq<Token>, ts: seq<Token>, p: nat, q: nat)
    requires q <= |input| && Grouped(input, done, ts, p, q)
    ensures AllValid(ts) && AllValid(done + ts) && Produces([], done + ts, input[..q]) && Parses(input, p, ts, q)
  {
  }

  lemma ParsesNothing(input: seq<Byte>, p: nat)
    ensures Parses(input, p, [], p)
  {
    assert [] + Tokens(input, p) == Tokens(input, p);
  }

  lemma ParsesSnoc(input: seq<Byte>, p: nat, ts: seq<Token>, q: nat)
    requires Parses(input, p, ts, q) && q < |input|
    ensures var t := ChosenToken(input, ChainsAt(input, q), q); Parses(input, p, ts + [t], q + Covered(t))
  {
    hide ChosenToken, ChainsAt, Tokens;
    var t := ChosenToken(input, ChainsAt(input, q), q);
    TokensStep(input, q);
    assert ts + ([t] + Tokens(input, q + Covered(t))) == (ts + [t]) + Tokens(input, q + Covered(t));
  }

  lemma TokensStep(input: seq<Byte>, p: nat)
    requires p < |input|
    ensures var t := ChosenToken(input, ChainsAt(input, p), p); Tokens(input, p) == [t] + Tokens(input, p + Covered(t))
  {
    hide ChosenToken, ChainsAt;
  }

  lemma ParsesJoin(input: seq<Byte>, p: nat, ts: seq<Token>, q: nat, us: seq<Token>, r: nat)
    requires Parses(input, p, ts, q) && Parses(input, q, us, r)
    ensures Parses(input, p, ts + us, r)
  {
    hide Tokens;
    assert ts + (us + Tokens(input, r)) == (ts + us) + Tokens(input, r);
  }

  lemma ParsesAll(input: seq<Byte>, ts: seq<Token>)
    requires Parses(input, 0, ts, |input|)
    ensures ts == Tokens(input, 0)
  {
    assert ts + [] == ts;
  }

  lemma CoversFacts(input: seq<Byte>, p: nat, t: Token, q: nat)
    requires Covers(input, p, t, q)
    ensures p < q <= |input|
  {
  }

  // The flag byte filled in once its group is known.
  lemma FlagPatched(before: seq<Byte>, flags: Byte, bytes: seq<Byte>, g: seq<Token>)
    requires AllValid(g) && |g| <= 8 && flags == Flags(g) && bytes == TokensBytes(g)
    ensures (before + [0] + bytes)[|before| := flags] == before + GroupBytes(g)
    ensures |GroupBytes(g)| == 1 + |bytes|
  {
    hide Flags, TokensBytes;
  }

  lemma DecodeAll(ts: seq<Token>, input: seq<Byte>)
    requires AllValid(ts) && Produces([], ts, input)
    ensures Decode(Encoded(ts), |input|) == Some(input)
  {
    hide DecodeFrom, Encoded, Produces;
    DecodeEncoded([], ts, input);
  }

  // The greedy parse from `p` rebuilds the rest of the input.
  lemma {:induction false} TokensProduce(input: seq<Byte>, p: nat)
    requires p <= |input|
    ensures Produces(input[..p], Tokens(input, p), input)
    decreases |input| - p
  {
    hide ChosenToken, ChainsAt, Produced, Tokens;
    if p == |input| {
      assert input[..p] == input;
      NoTokens(input);
    } else {
      var t := ChosenToken(input, ChainsAt(input, p), p);
      ChosenCovers(input, ChainsAt(input, p), p);
      TokenProduces(input, p, t, p + Covered(t));
      TokensStep(input, p);
      TokensProduce(input, p + Covered(t));
      assert ([t] + Tokens(input, p + Covered(t)))[1..] == Tokens(input, p + Covered(t));
    }
  }

  lemma NoTokens(input: seq<Byte>)
    ensures Tokens(input, |input|) == []
  {
  }

  // Decoding undoes compression.
  lemma CompressedDecodes(input: seq<Byte>)
    ensures Decode(Compressed(input), |input|) == Some(input)
  {
    hide Tokens, Encoded, Decode;
    TokensValid(input, 0);
    TokensProduce(input, 0);
    assert input[..0] == [];
    DecodeAll(Tokens(input, 0), input);
  }

  lemma StartsInStep(input: seq<Byte>, head: array<int>, previous: array<int>)
    requires head.Length == HASH_SLOTS && previous.Length == |input|
    requires (forall i :: 0 <= i < HASH_SLOTS ==> head[i] == -1) && forall i :: 0 <= i < |input| ==> previous[i] == -1
    ensures InStep(input, head, previous, 0) && Produces([], [], input[..0])
  {
    assert head[..] == Fresh(input).head && previous[..] == Fresh(input).previous;
  }

  // `lzss_compress`. Decoding to the input's length gives the input back; every token is a
  // literal or a match with distance 1..4096 and length 3..18; the output is at most one flag
  // byte per eight input bytes longer than the input.
  method Compress(input: seq<Byte>) returns (output: seq<Byte>, ghost ts: seq<Token>)
    ensures Decode(output, |input|) == Some(input)
    ensures AllValid(ts) && Produces([], ts, input) && output == Encoded(ts)
    ensures |output| <= |input| + (|input| + 7) / 8
    ensures output == Compressed(input)
  {
    hide InStep, Parses, Grouped, Produces, Encoded, TokensBytes, Flags, Pow2, AllValid, Decode, GroupBytes, Tokens;
    var head := new int[HASH_SLOTS](_ => -1);
    var previous := new int[|input|](_ => -1);
    output, ts := [], [];
    NothingEncoded();
    StartsInStep(input, head, previous);
    ParsesNothing(input, 0);
    ghost var groups := 0;
    var position := 0;
    while position < |input|
      invariant position <= |input| && InStep(input, head, previous, position) && Parses(input, 0, ts, position)
      invariant AllValid(ts) && Produces([], ts, input[..position]) && output == Encoded(ts)
      invariant position < |input| ==> |ts| == 8 * groups
      invariant |output| <= position + groups && (groups > 0 ==> 8 * (groups - 1) < |ts|) && |ts| <= position
    {
      var flagPosition := |output|;
      ghost var before := output;
      output := output + [0];
      var flags, bytes;
      ghost var g;
      ghost var done, start := ts, position;
      position, flags, bytes, g := CompressGroup(input, head, previous, position, done);
      GroupedValid(input, done, g, start, position);
      EncodedSnocGroup(done, g, groups);
      output := output + bytes;
      output := output[flagPosition := flags];
      FlagPatched(before, flags, bytes, g);
      ParsesJoin(input, 0, done, start, g, position);
      ts := done + g;
      groups := groups + 1;
      ProducesGrows([], ts, input[..position]);
    }
    assert input[..position] == input;
    ParsesAll(input, ts);
    DecodeAll(ts, input);
  }
}

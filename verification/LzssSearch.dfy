// What the hash chains find: the newest positions with the same hash, and so the longest match in
// the window unless the chain limit ends the search.
module LzssSearch {
  import opened Bytes
  import opened Lzss

  predicate HasHash(input: seq<Byte>, h: nat, q: nat) {
    q + MIN_MATCH <= |input| && HashAt(input, q) == h
  }

  // The newest position before `p` with hash `h`, or -1.
  function Newest(input: seq<Byte>, h: nat, p: nat): (q: int)
    ensures -1 <= q < p && (q >= 0 ==> HasHash(input, h, q))
  {
    if p == 0 then -1 else if HasHash(input, h, p - 1) then p - 1 else Newest(input, h, p - 1)
  }

  lemma {:induction false} NewestIs(input: seq<Byte>, h: nat, p: nat, q: nat)
    requires q < p && HasHash(input, h, q)
    ensures q <= Newest(input, h, p)
  {
    hide HasHash;
    if q < p - 1 {
      NewestIs(input, h, p - 1, q);
    }
  }

  // Positions up to 2^31 survive the cast to a signed word.
  ghost predicate Addressable(input: seq<Byte>, p: nat) {
    p <= |input| && p <= 0x8000_0000
  }

  // The head of a chain is the newest position with its hash.
  lemma {:induction false} HeadIs(input: seq<Byte>, p: nat, h: nat)
    requires Addressable(input, p) && h < HASH_SLOTS
    ensures ChainsAt(input, p).head[h] == Newest(input, h, p)
  {
    hide HashAt;
    if p > 0 {
      HeadIs(input, p - 1, h);
    }
  }

  // Each link leads to the newest earlier position with the same hash.
  lemma {:induction false} LinkIs(input: seq<Byte>, p: nat, q: nat)
    requires Addressable(input, p) && q < p && q + MIN_MATCH <= |input|
    ensures ChainsAt(input, p).previous[q] == Newest(input, HashAt(input, q), q)
  {
    hide HashAt;
    if q == p - 1 {
      HeadIs(input, q, HashAt(input, q));
    } else {
      LinkIs(input, p - 1, q);
    }
  }

  // From any newest position on, the chain meets every position in the window with its hash, or
  // is cut by its limit.
  lemma {:induction false} ChainMeets(input: seq<Byte>, h: nat, p: nat, start: nat, k: nat, q: nat)
    requires Addressable(input, p) && q < start <= p && HasHash(input, h, q) && p - q <= WINDOW
    ensures var cs := Chain(ChainsAt(input, p).previous, Newest(input, h, start), k, p);
            q in cs || |cs| == k
    decreases k
  {
    hide HashAt, ChainsAt, Newest;
    NewestIs(input, h, start, q);
    var c := Newest(input, h, start);
    if k > 0 && c > q {
      LinkIs(input, p, c);
      ChainMeets(input, h, p, c, k - 1, q);
    }
  }

  // Positions before `start` with hash `h`, newest first.
  ghost predicate Descends(input: seq<Byte>, h: nat, start: int, cs: seq<nat>) {
    && (forall i :: 0 <= i < |cs| ==> cs[i] < start && HasHash(input, h, cs[i]))
    && forall i, j :: 0 <= i < j < |cs| ==> cs[j] < cs[i]
  }

  lemma DescendsCons(input: seq<Byte>, h: nat, start: int, c: nat, rest: seq<nat>)
    requires c < start && HasHash(input, h, c) && Descends(input, h, c, rest)
    ensures Descends(input, h, start, [c] + rest)
  {
    hide HasHash;
  }

  lemma {:induction false} ChainDescends(input: seq<Byte>, h: nat, p: nat, start: nat, k: nat)
    requires Addressable(input, p) && start <= p
    ensures Descends(input, h, start, Chain(ChainsAt(input, p).previous, Newest(input, h, start), k, p))
    decreases k
  {
    hide HashAt, ChainsAt, Newest, Descends;
    var c := Newest(input, h, start);
    if k > 0 && c >= 0 && p - c <= WINDOW {
      var previous := ChainsAt(input, p).previous;
      LinkIs(input, p, c);
      ChainDescends(input, h, p, c, k - 1);
      DescendsCons(input, h, start, c, Chain(previous, previous[c], k - 1, p));
    } else {
      DescendsNone(input, h, start);
    }
  }

  lemma DescendsNone(input: seq<Byte>, h: nat, start: int)
    ensures Descends(input, h, start, [])
  {
  }

  // The search visits positions of the window with the hash at `p` only, newest first, and misses
  // one only after CHAIN_LIMIT newer ones.
  lemma CandidatesExact(input: seq<Byte>, p: nat)
    requires Addressable(input, p) && p + MIN_MATCH <= |input|
    ensures var cs, h := Candidates(input, ChainsAt(input, p), p), HashAt(input, p);
            && Descends(input, h, p, cs)
            && forall q: nat :: q < p && p - q <= WINDOW && HasHash(input, h, q) ==> q in cs || |cs| == CHAIN_LIMIT
  {
    hide HashAt, ChainsAt, Newest, Chain, HasHash, Descends;
    var h := HashAt(input, p);
    HeadIs(input, p, h);
    ChainDescends(input, h, p, p, CHAIN_LIMIT);
    forall q: nat | q < p && p - q <= WINDOW && HasHash(input, h, q)
      ensures var cs := Candidates(input, ChainsAt(input, p), p); q in cs || |cs| == CHAIN_LIMIT
    {
      ChainMeets(input, h, p, p, CHAIN_LIMIT, q);
    }
  }

  // A repeat of three bytes has the same hash.
  lemma SameHash(input: seq<Byte>, p: nat, q: nat, n: nat)
    requires q < p && n >= MIN_MATCH && Repeats(input, p, p - q, n)
    ensures HasHash(input, HashAt(input, p), q)
  {
    assert input[p - (p - q)] == input[p];
    assert input[p + 1 - (p - q)] == input[p + 1];
    assert input[p + 2 - (p - q)] == input[p + 2];
  }

  lemma RunAtLeast(input: seq<Byte>, q: nat, p: nat, n: nat)
    requires q < p && n <= MAX_MATCH && Repeats(input, p, p - q, n)
    ensures RunLength(input, q, p) >= n
  {
    hide RunFrom;
    RunFromIs(input, q, p, 0);
    var r := RunFrom(input, q, p, 0);
    assert r < Limit(input, p) ==> !(input[q + r] == input[p + r]);
  }

  // The token taken at `p` copies at least as much as any match in the window would, unless the
  // search was cut after CHAIN_LIMIT positions.
  lemma LongestInWindow(input: seq<Byte>, p: nat, d: nat, n: nat)
    requires Addressable(input, p) && p < |input|
    requires MIN_MATCH <= n <= MAX_MATCH && d <= WINDOW && Repeats(input, p, d, n)
    ensures var c := ChainsAt(input, p);
            var t := ChosenToken(input, c, p);
            |Candidates(input, c, p)| == CHAIN_LIMIT || (t.Match? && t.length >= n)
  {
    hide Candidates, ChainsAt, BestOf, HashAt, HasHash, RunLength, Repeats;
    MatchFits(input, p, d, n);
    var cs := Candidates(input, ChainsAt(input, p), p);
    CandidatesExact(input, p);
    SameHash(input, p, p - d, n);
    RunAtLeast(input, p - d, p, n);
    BestLongest(input, p, cs);
    if |cs| != CHAIN_LIMIT {
      var i :| 0 <= i < |cs| && cs[i] == p - d;
      assert RunLength(input, cs[i], p) >= n;
    }
  }

  lemma MatchFits(input: seq<Byte>, p: nat, d: nat, n: nat)
    requires Repeats(input, p, d, n)
    ensures 1 <= d <= p && p + n <= |input|
  {
  }

  lemma {:induction false} BestIsOne(input: seq<Byte>, p: nat, cs: seq<nat>) returns (k: nat)
    requires p <= |input| && (forall i :: 0 <= i < |cs| ==> cs[i] < p) && BestOf(input, p, cs).length > 0
    ensures k < |cs| && BestOf(input, p, cs).distance == p - cs[k]
  {
    hide RunLength;
    var m := |cs| - 1;
    var before := BestOf(input, p, cs[..m]);
    if BestOf(input, p, cs) == before {
      k := BestIsOne(input, p, cs[..m]);
    } else {
      k := m;
    }
  }

  // Of the longest candidates the nearest is taken.
  lemma {:induction false} NearestLongest(input: seq<Byte>, p: nat, cs: seq<nat>, i: nat)
    requires p <= |input| && (forall k :: 0 <= k < |cs| ==> cs[k] < p && p - cs[k] <= WINDOW) && i < |cs|
    requires forall j, k :: 0 <= j < k < |cs| ==> cs[k] < cs[j]
    requires RunLength(input, cs[i], p) >= MIN_MATCH && RunLength(input, cs[i], p) == BestOf(input, p, cs).length
    ensures BestOf(input, p, cs).distance <= p - cs[i]
  {
    hide RunLength, Repeats;
    var m := |cs| - 1;
    BestLongest(input, p, cs[..m]);
    if i < m {
      assert cs[..m][i] == cs[i];
      NearestLongest(input, p, cs[..m], i);
    } else {
      var k := BestIsOne(input, p, cs);
    }
  }
}

// How far the compressor shrinks an input that ends in a run of one byte.
module LzssRuns {
  import opened Bytes
  import opened Lzss

  // From `s` on, every byte is the same.
  ghost predicate RunFromTo(input: seq<Byte>, s: nat) {
    s < |input| <= 0x8000_0000 && forall i :: s <= i < |input| ==> input[i] == input[s]
  }

  // Inside the run the newest entry of the chain is the position just before.
  lemma NearestFirst(input: seq<Byte>, s: nat, p: nat)
    requires RunFromTo(input, s) && s < p && p + MIN_MATCH <= |input|
    ensures var cs := Candidates(input, ChainsAt(input, p), p); |cs| > 0 && cs[0] == p - 1
  {
    hide Chain, Fresh;
    assert HashAt(input, p) == HashAt(input, p - 1);
    var c := LinkedRun(input, Fresh(input), 0, p - 1);
    assert ChainsAt(input, p) == Linked(input, c, p - 1);
    ChainStarts(ChainsAt(input, p).previous, p - 1, CHAIN_LIMIT, p);
  }

  lemma ChainStarts(previous: seq<int>, c: nat, k: nat, p: nat)
    requires p == c + 1 && p <= |previous| && k > 0
    ensures |Chain(previous, c, k, p)| > 0 && Chain(previous, c, k, p)[0] == c
  {
  }

  lemma {:induction false} RunWhole(input: seq<Byte>, s: nat, p: nat, n: nat)
    requires RunFromTo(input, s) && s < p <= |input| && n <= Limit(input, p)
    ensures RunFrom(input, p - 1, p, n) == Limit(input, p)
    decreases Limit(input, p) - n
  {
    if n < Limit(input, p) {
      RunWhole(input, s, p, n + 1);
    }
  }

  // There the compressor takes the longest match possible.
  lemma RunToken(input: seq<Byte>, s: nat, p: nat)
    requires RunFromTo(input, s) && s < p && p + MIN_MATCH <= |input|
    ensures ChosenToken(input, ChainsAt(input, p), p) == Match(1, Limit(input, p))
  {
    hide ChainsAt, Candidates, BestOf;
    NearestFirst(input, s, p);
    RunWhole(input, s, p, 0);
    var cs := Candidates(input, ChainsAt(input, p), p);
    BestNone(input, p);
    BestSnoc(input, p, cs, 0);
    assert cs[..0] == [];
    BestStays(input, p, cs, 1);
  }

  // ---- counting ----

  lemma {:induction false} EncodedSize(ts: seq<Token>)
    requires AllValid(ts)
    ensures |Encoded(ts)| == |TokensBytes(ts)| + (|ts| + 7) / 8
  {
    hide TokensBytes, Flags;
    if |ts| > 8 {
      EncodedHead(ts);
      EncodedSize(ts[8..]);
      SizeSplit(ts, 8);
      GroupSize(ts[..8]);
    } else if |ts| > 0 {
      EncodedLast(ts);
      GroupSize(ts);
    } else {
      NothingEncoded();
    }
  }

  lemma GroupSize(g: seq<Token>)
    requires AllValid(g) && |g| <= 8
    ensures |GroupBytes(g)| == 1 + |TokensBytes(g)|
  {
    hide TokensBytes, Flags;
  }

  lemma {:induction false} SizeSplit(ts: seq<Token>, k: nat)
    requires AllValid(ts) && k <= |ts|
    ensures AllValid(ts[..k]) && AllValid(ts[k..]) &&
      |TokensBytes(ts)| == |TokensBytes(ts[..k])| + |TokensBytes(ts[k..])|
  {
    hide TokenBytes, ValidToken;
    if k == 0 {
      assert ts[..0] == [] && ts[0..] == ts;
    } else {
      var rest := ts[1..];
      TokensBytesHead(ts);
      TokensBytesHead(ts[..k]);
      assert ts[..k][1..] == rest[..k - 1] && rest[k - 1..] == ts[k..];
      SizeSplit(rest, k - 1);
    }
  }

  // Tokens and bytes from `p` on are at most these.
  ghost predicate Within(input: seq<Byte>, p: nat, count: nat, bytes: nat) {
    AllValid(Tokens(input, p)) && |Tokens(input, p)| <= count && |TokensBytes(Tokens(input, p))| <= bytes
  }

  lemma WithinStep(input: seq<Byte>, p: nat, count: nat, bytes: nat)
    requires p < |input|
    requires var t := ChosenToken(input, ChainsAt(input, p), p); Within(input, p + Covered(t), count, bytes)
    ensures var t := ChosenToken(input, ChainsAt(input, p), p);
            && 1 <= Covered(t) <= MAX_MATCH && p + Covered(t) <= |input|
            && Within(input, p, count + 1, bytes + if t.Literal? then 1 else 2)
  {
    hide ChosenToken, ChainsAt, Tokens, TokensBytes;
    var t := ChosenToken(input, ChainsAt(input, p), p);
    ChosenCovers(input, ChainsAt(input, p), p);
    TokensValid(input, p);
    TokensStep(input, p);
    var rest := Tokens(input, p + Covered(t));
    assert Tokens(input, p)[0] == t && Tokens(input, p)[1..] == rest;
    TokensBytesHead(Tokens(input, p));
  }

  lemma WithinEnd(input: seq<Byte>, p: nat)
    requires p >= |input|
    ensures Within(input, p, 0, 0)
  {
  }

  lemma WithinMore(input: seq<Byte>, p: nat, count: nat, bytes: nat, c: nat, b: nat)
    requires Within(input, p, count, bytes) && count <= c && bytes <= b
    ensures Within(input, p, c, b)
  {
  }

  // Two literals at most.
  lemma ShortEnd(input: seq<Byte>, p: nat)
    requires p <= |input| < p + MIN_MATCH
    ensures Within(input, p, 2, 2)
    decreases |input| - p
  {
    hide Within, ChosenToken, ChainsAt;
    var q := |input|;
    WithinEnd(input, q);
    if p + 1 == q {
      LiteralEnd(input, p);
      WithinStep(input, p, 0, 0);
      WithinMore(input, p, 1, 1, 2, 2);
    } else if p + 2 == q {
      LiteralEnd(input, p + 1);
      WithinStep(input, p + 1, 0, 0);
      LiteralEnd(input, p);
      WithinStep(input, p, 1, 1);
    } else {
      WithinMore(input, p, 0, 0, 2, 2);
    }
  }

  lemma LiteralEnd(input: seq<Byte>, p: nat)
    requires p < |input| < p + MIN_MATCH
    ensures ChosenToken(input, ChainsAt(input, p), p).Literal?
  {
    hide ChainsAt;
  }

  // From a position inside the run: two bytes for every eighteen.
  lemma {:induction false} RunWithin(input: seq<Byte>, s: nat, p: nat)
    requires RunFromTo(input, s) && s < p <= |input|
    ensures Within(input, p, (|input| - p) / MAX_MATCH + 2, 2 * ((|input| - p) / MAX_MATCH + 2))
    decreases |input| - p
  {
    hide Within, ChosenToken, ChainsAt, RunFromTo;
    var r := |input| - p;
    if r < MIN_MATCH {
      ShortEnd(input, p);
      WithinMore(input, p, 2, 2, r / MAX_MATCH + 2, 2 * (r / MAX_MATCH + 2));
    } else {
      RunToken(input, s, p);
      if r < MAX_MATCH {
        WithinEnd(input, |input|);
        WithinStep(input, p, 0, 0);
        WithinMore(input, p, 1, 2, r / MAX_MATCH + 2, 2 * (r / MAX_MATCH + 2));
      } else {
        RunWithin(input, s, p + MAX_MATCH);
        assert (r - MAX_MATCH) / MAX_MATCH == r / MAX_MATCH - 1;
        WithinStep(input, p, r / MAX_MATCH + 1, 2 * (r / MAX_MATCH + 1));
      }
    }
  }

  // From anywhere: one byte for each byte up to where the run is surely entered.
  lemma {:induction false} AllWithin(input: seq<Byte>, s: nat, p: nat)
    requires RunFromTo(input, s) && p <= s + MAX_MATCH && p <= |input|
    ensures var m := (|input| - s) / MAX_MATCH + 2;
            Within(input, p, s + MAX_MATCH - p + m, s + MAX_MATCH - p + 2 * m)
    decreases |input| - p
  {
    hide Within, ChosenToken, ChainsAt, RunFromTo;
    var m := (|input| - s) / MAX_MATCH + 2;
    if p > s {
      RunWithin(input, s, p);
      var n := (|input| - p) / MAX_MATCH + 2;
      WithinMore(input, p, n, 2 * n, s + MAX_MATCH - p + m, s + MAX_MATCH - p + 2 * m);
    } else {
      RunInside(input, s);
      var t := ChosenToken(input, ChainsAt(input, p), p);
      TokenReach(input, p);
      var q := p + Covered(t);
      AllWithin(input, s, q);
      WithinStep(input, p, s + MAX_MATCH - q + m, s + MAX_MATCH - q + 2 * m);
      WithinMore(input, p, s + MAX_MATCH - q + m + 1, s + MAX_MATCH - q + 2 * m + (if t.Literal? then 1 else 2),
                 s + MAX_MATCH - p + m, s + MAX_MATCH - p + 2 * m);
    }
  }

  lemma RunInside(input: seq<Byte>, s: nat)
    requires RunFromTo(input, s)
    ensures s < |input|
  {
  }

  lemma TokenReach(input: seq<Byte>, p: nat)
    requires p < |input|
    ensures var t := ChosenToken(input, ChainsAt(input, p), p);
            && 1 <= Covered(t) <= MAX_MATCH && p + Covered(t) <= |input| && (t.Match? ==> Covered(t) >= MIN_MATCH)
  {
    hide ChosenToken, ChainsAt;
    ChosenCovers(input, ChainsAt(input, p), p);
  }

  // The compressed size of an input that ends in a run starting at `s`.
  lemma RunShrinks(input: seq<Byte>, s: nat)
    requires RunFromTo(input, s)
    ensures var m := (|input| - s) / MAX_MATCH + 2;
            |Compressed(input)| <= s + MAX_MATCH + 2 * m + (s + MAX_MATCH + m + 7) / 8
  {
    hide Tokens, TokensBytes, Encoded, RunFromTo;
    TokensValid(input, 0);
    AllWithin(input, s, 0);
    EncodedSize(Tokens(input, 0));
  }
}

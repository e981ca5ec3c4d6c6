// What the accepted entrypoints and identifiers look like: absolute paths of plain components, and
// dotted labels.
module SafeNames {
  import opened Manifests
  import opened Validation

  // ---- joining and splitting ----

  function Joined(parts: seq<Text>, sep: Ch): (v: Text) {
    if parts == [] then []
    else if |parts| == 1 then parts[0]
    else parts[0] + [sep] + Joined(parts[1..], sep)
  }

  // ---- entrypoints ----

  // A name within a directory: not empty, not "." or "..", and of printable characters other than
  // slash, backslash and colon.
  ghost predicate Component(c: Text) {
    && c != [] && c != "." && c != ".."
    && forall i :: 0 <= i < |c| ==>
         c[i] as int >= 32 && c[i] as int != 127 && c[i] != '/' && c[i] != '\\' && c[i] != ':'
  }

  ghost predicate AllComponents(cs: seq<Text>) {
    cs != [] && forall i :: 0 <= i < |cs| ==> Component(cs[i])
  }

  lemma {:induction false} FindFirst(v: Text, x: Ch)
    ensures x !in v[..Find<Ch>(v, x)]
  {
    if v != [] && v[0] != x {
      FindFirst(v[1..], x);
      assert v[..Find<Ch>(v, x)] == [v[0]] + v[1..][..Find<Ch>(v[1..], x)];
    }
  }

  lemma {:induction false} FindAfter(a: Text, x: Ch, b: Text)
    requires x !in a && (b == [] || b[0] == x)
    ensures Find<Ch>(a + b, x) == |a|
  {
    if a == [] {
      assert a + b == b;
    } else {
      FindAfter(a[1..], x, b);
      assert (a + b)[1..] == a[1..] + b;
    }
  }

  // One turn of the loop over the components.
  lemma OneComponent(v: Text, start: nat, end: nat)
    requires start <= |v| && end == start + Find<Ch>(v[start..], '/')
    ensures Components(v, start) <==> Component(v[start..end]) && (end == |v| || Components(v, end + 1))
  {
    hide Find;
    FindFirst(v[start..], '/');
    var first := v[start..end];
    assert first == v[start..][..end - start];
    assert forall i :: 0 <= i < |first| ==> first[i] != '/';
  }

  // Accepted components, one by one.
  lemma {:induction false} ComponentsSplit(v: Text, start: nat) returns (cs: seq<Text>)
    requires start <= |v| && Components(v, start)
    ensures AllComponents(cs) && Joined(cs, '/') == v[start..]
    decreases |v| - start
  {
    hide Components, Component, Find;
    var end := start + Find<Ch>(v[start..], '/');
    var first := v[start..end];
    OneComponent(v, start, end);
    if end == |v| {
      cs := [first];
    } else {
      var rest := ComponentsSplit(v, end + 1);
      cs := [first] + rest;
      assert cs[1..] == rest;
      assert v[start..][end - start] == '/';
      assert v[start..] == first + ['/'] + v[end + 1..];
    }
  }

  // What follows the first component.
  function Rest(cs: seq<Text>): (v: Text)
    requires cs != []
  {
    if |cs| == 1 then [] else ['/'] + Joined(cs[1..], '/')
  }

  lemma JoinedRest(cs: seq<Text>)
    requires cs != []
    ensures Joined(cs, '/') == cs[0] + Rest(cs)
  {
  }

  lemma Middle(a: Text, b: Text, c: Text)
    ensures (a + (b + c))[|a|..] == b + c && (a + (b + c))[|a|..|a| + |b|] == b
  {
  }

  lemma Regrouped(a: Text, b: Text, c: Text, d: Text)
    ensures a + (b + (c + d)) == a + b + c + d
  {
  }

  // Joined components are accepted wherever they start.
  lemma {:induction false} JoinedComponents(before: Text, cs: seq<Text>)
    requires AllComponents(cs)
    ensures Components(before + Joined(cs, '/'), |before|)
    decreases |cs|
  {
    hide Components, Component, Find, Joined, Rest;
    var v, first, rest := before + Joined(cs, '/'), cs[0], Rest(cs);
    JoinedRest(cs);
    Middle(before, first, rest);
    NoSlash(first);
    RestStarts(cs);
    FindAfter(first, '/', rest);
    OneComponent(v, |before|, |before| + |first|);
    if |cs| > 1 {
      JoinedComponents(before + first + ['/'], cs[1..]);
      Regrouped(before, first, ['/'], Joined(cs[1..], '/'));
    }
  }

  lemma RestStarts(cs: seq<Text>)
    requires cs != []
    ensures if |cs| == 1 then Rest(cs) == [] else Rest(cs) == ['/'] + Joined(cs[1..], '/')
  {
    hide Joined;
  }

  lemma NoSlash(c: Text)
    requires Component(c)
    ensures '/' !in c
  {
  }

  lemma {:induction false} JoinedEnds(cs: seq<Text>)
    requires AllComponents(cs)
    ensures Joined(cs, '/') != [] && Joined(cs, '/')[|Joined(cs, '/')| - 1] != '/'
  {
    if |cs| > 1 {
      JoinedEnds(cs[1..]);
    } else {
      assert Component(cs[0]);
    }
  }

  // An entrypoint is accepted exactly when it is "-" or an absolute path of at most 127 characters
  // made of components.
  lemma EntrypointExact(v: Text)
    ensures SafeEntrypoint(v) <==>
            v == "-" || (|v| <= 127 && exists cs :: AllComponents(cs) && v == ['/'] + Joined(cs, '/'))
  {
    hide Components, Component;
    if v != [] && v[0] == '/' && Components(v, 1) {
      var cs := ComponentsSplit(v, 1);
      assert v == ['/'] + Joined(cs, '/');
    }
    if cs :| AllComponents(cs) && v == ['/'] + Joined(cs, '/') {
      JoinedComponents(['/'], cs);
      JoinedEnds(cs);
    }
  }

  // Walking a path from a directory: "." stays, ".." goes up, anything else goes down.
  function Walked(at: seq<Text>, cs: seq<Text>): (r: seq<Text>)
    decreases |cs|
  {
    if cs == [] then at
    else if cs[0] == "." then Walked(at, cs[1..])
    else if cs[0] == ".." then Walked(if at == [] then at else at[..|at| - 1], cs[1..])
    else Walked(at + [cs[0]], cs[1..])
  }

  // An accepted entrypoint goes down at every step: from any directory it ends below it.
  lemma {:induction false} WalksDown(at: seq<Text>, cs: seq<Text>)
    requires forall i :: 0 <= i < |cs| ==> Component(cs[i])
    ensures Walked(at, cs) == at + cs
    decreases |cs|
  {
    if cs != [] {
      WalksDown(at + [cs[0]], cs[1..]);
    }
  }

  // ---- identifiers ----

  ghost predicate Letter(c: Ch) {
    '0' <= c <= '9' || 'A' <= c <= 'Z' || 'a' <= c <= 'z'
  }

  // Letters, digits, hyphens and underscores.
  ghost predicate Label(l: Text) {
    l != [] && forall i :: 0 <= i < |l| ==> Letter(l[i]) || l[i] == '-' || l[i] == '_'
  }

  ghost predicate AllLabels(ls: seq<Text>) {
    ls != [] && forall i :: 0 <= i < |ls| ==> Label(ls[i])
  }

  // Identifier characters without two dots in a row or a dot at either end.
  ghost predicate WellDotted(v: Text) {
    && v != [] && v[0] != '.' && v[|v| - 1] != '.'
    && (forall i :: 0 <= i < |v| - 1 ==> !(v[i] == '.' && v[i + 1] == '.'))
    && forall i :: 0 <= i < |v| ==> IdentifierChar(v[i])
  }

  lemma {:induction false} DottedSplit(v: Text) returns (ls: seq<Text>)
    requires WellDotted(v)
    ensures AllLabels(ls) && Joined(ls, '.') == v
    decreases |v|
  {
    var end := Find<Ch>(v, '.');
    FirstLabel(v, end);
    if end == |v| {
      assert v[..end] == v;
      ls := [v];
    } else {
      var rest := DottedSplit(v[end + 1..]);
      ls := [v[..end]] + rest;
      assert ls[1..] == rest;
      assert v == v[..end] + ['.'] + v[end + 1..];
    }
  }

  lemma FirstLabel(v: Text, end: nat)
    requires WellDotted(v) && end == Find<Ch>(v, '.')
    ensures Label(v[..end]) && (end < |v| ==> WellDotted(v[end + 1..]))
  {
    hide Find, Label, IdentifierChar;
    FindFirst(v, '.');
    var first := v[..end];
    assert forall i :: 0 <= i < end ==> first[i] == v[i] && first[i] in first;
    LabelChars(first);
    if end < |v| {
      var rest := v[end + 1..];
      assert forall i :: 0 <= i < |rest| ==> rest[i] == v[end + 1 + i];
    }
  }

  lemma LabelChars(l: Text)
    requires l != [] && '.' !in l && forall i :: 0 <= i < |l| ==> IdentifierChar(l[i])
    ensures Label(l)
  {
  }

  lemma {:induction false} LabelsDotted(ls: seq<Text>)
    requires AllLabels(ls)
    ensures WellDotted(Joined(ls, '.'))
  {
    assert Label(ls[0]);
    if |ls| > 1 {
      LabelsDotted(ls[1..]);
      DottedCons(ls[0], Joined(ls[1..], '.'));
    }
  }

  lemma DottedCons(l: Text, v: Text)
    requires Label(l) && WellDotted(v)
    ensures WellDotted(l + ['.'] + v)
  {
    var w := l + ['.'] + v;
    assert forall i :: 0 <= i < |w| ==> w[i] == if i < |l| then l[i] else if i == |l| then '.' else v[i - |l| - 1];
  }

  // An identifier is accepted exactly when it is at most 64 characters of labels joined by dots,
  // beginning and ending with a letter or digit.
  lemma IdentifierExact(v: Text)
    ensures SafeIdentifier(v) <==>
            && 0 < |v| <= 64 && Letter(v[0]) && Letter(v[|v| - 1])
            && exists ls :: AllLabels(ls) && Joined(ls, '.') == v
  {
    hide AllLabels, Joined;
    if SafeIdentifier(v) {
      assert WellDotted(v);
      var ls := DottedSplit(v);
    }
    if ls :| AllLabels(ls) && Joined(ls, '.') == v {
      LabelsDotted(ls);
    }
  }
}

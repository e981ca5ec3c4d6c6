// The canonical form of a manifest, and the parser as its inverse.
module Canonical {
  import opened Bytes
  import opened Manifests

  // ---- sorting ----

  // Byte-wise order of std::string.
  predicate Before(a: Text, b: Text) {
    if a == [] then true
    else if b == [] then false
    else a[0] < b[0] || (a[0] == b[0] && Before(a[1..], b[1..]))
  }

  lemma {:induction false} BeforeTotal(a: Text, b: Text)
    ensures Before(a, b) || Before(b, a)
    ensures Before(a, b) && Before(b, a) ==> a == b
  {
    if a != [] && b != [] {
      BeforeTotal(a[1..], b[1..]);
      assert a == [a[0]] + a[1..] && b == [b[0]] + b[1..];
    }
  }

  lemma {:induction false} BeforeTransitive(a: Text, b: Text, c: Text)
    requires Before(a, b) && Before(b, c)
    ensures Before(a, c)
  {
    if a != [] && b != [] && c != [] && a[0] == b[0] == c[0] {
      BeforeTransitive(a[1..], b[1..], c[1..]);
    }
  }

  ghost predicate Ordered(s: seq<Text>) {
    forall i, j :: 0 <= i < j < |s| ==> Before(s[i], s[j])
  }

  function Placed(x: Text, s: seq<Text>): (r: seq<Text>)
    ensures multiset(r) == multiset(s) + multiset{x}
    ensures |r| == |s| + 1
  {
    if s == [] then [x]
    else if Before(x, s[0]) then [x] + s
    else
      assert s == [s[0]] + s[1..];
      [s[0]] + Placed(x, s[1..])
  }

  // std::sort.
  function Sort(s: seq<Text>): (r: seq<Text>)
    ensures multiset(r) == multiset(s) && |r| == |s|
  {
    if s == [] then [] else
      assert s == [s[0]] + s[1..];
      Placed(s[0], Sort(s[1..]))
  }

  lemma {:induction false} PlacedOrdered(x: Text, s: seq<Text>)
    requires Ordered(s)
    ensures Ordered(Placed(x, s))
  {
    hide Before;
    if s != [] {
      BeforeTotal(x, s[0]);
      if Before(x, s[0]) {
        forall j | 0 <= j < |s|
          ensures Before(x, s[j])
        {
          if j > 0 {
            BeforeTransitive(x, s[0], s[j]);
          }
        }
      } else {
        var t := Placed(x, s[1..]);
        PlacedOrdered(x, s[1..]);
        forall j | 0 <= j < |t|
          ensures Before(s[0], t[j])
        {
          assert t[j] in multiset(t);
          assert t[j] == x || t[j] in s[1..];
        }
      }
    }
  }

  lemma {:induction false} SortOrdered(s: seq<Text>)
    ensures Ordered(Sort(s))
  {
    if s != [] {
      SortOrdered(s[1..]);
      PlacedOrdered(s[0], Sort(s[1..]));
    }
  }

  lemma HeadLeast(s: seq<Text>, x: Text)
    requires Ordered(s) && x in multiset(s)
    ensures s != [] && Before(s[0], x)
  {
    hide Before;
    BeforeTotal(x, x);
    var j :| 0 <= j < |s| && s[j] == x;
  }

  lemma TailBag(s: seq<Text>)
    requires s != []
    ensures multiset(s[1..]) == multiset(s) - multiset{s[0]}
  {
    assert s == [s[0]] + s[1..];
  }

  // A list has one ordered arrangement, so any sorting algorithm gives this one.
  lemma {:induction false} OrderedUnique(s: seq<Text>, t: seq<Text>)
    requires Ordered(s) && Ordered(t) && multiset(s) == multiset(t)
    ensures s == t
  {
    hide Before;
    assert |multiset(s)| == |s| && |multiset(t)| == |t|;
    if s != [] {
      assert s[0] in multiset(s) && t[0] in multiset(t);
      HeadLeast(t, s[0]);
      HeadLeast(s, t[0]);
      BeforeTotal(s[0], t[0]);
      TailBag(s);
      TailBag(t);
      OrderedUnique(s[1..], t[1..]);
      assert s == [s[0]] + s[1..] && t == [t[0]] + t[1..];
    }
  }

  lemma SortFixed(s: seq<Text>)
    ensures Sort(Sort(s)) == Sort(s)
  {
    SortOrdered(s);
    SortOrdered(Sort(s));
    OrderedUnique(Sort(Sort(s)), Sort(s));
  }

  // ---- the canonical text ----

  function Line(key: Text, value: Text): (t: Text) {
    key + ['='] + value + ['\n']
  }

  // The scalar lines from field `i` on.
  function ScalarLines(fields: seq<Text>, i: nat): (t: Text)
    requires |fields| == FIELDS && i <= FIELDS
    decreases FIELDS - i
  {
    if i == FIELDS then [] else Line(Keys()[i], fields[i]) + ScalarLines(fields, i + 1)
  }

  function ListLines(key: Text, values: seq<Text>): (t: Text) {
    if values == [] then [] else Line(key, values[0]) + ListLines(key, values[1..])
  }

  function SortedLists(m: Manifest): (r: Manifest) {
    m.(capabilities := Sort(m.capabilities), dependencies := Sort(m.dependencies), conflicts := Sort(m.conflicts))
  }

  function ListsText(m: Manifest): (t: Text) {
    ListLines("capability", m.capabilities) +
      (ListLines("dependency", m.dependencies) + ListLines("conflict", m.conflicts))
  }

  // `canonical_manifest`.
  function CanonicalText(m: Manifest): (t: Text)
    requires |m.fields| == FIELDS
  {
    ScalarLines(m.fields, 0) + ListsText(SortedLists(m))
  }

  // ---- keys ----

  predicate KeyChar(c: Ch) {
    'a' <= c <= 'z' || c == '_'
  }

  predicate PlainKey(k: Text) {
    k != [] && forall i :: 0 <= i < |k| ==> KeyChar(k[i])
  }

  lemma KeysPlain(i: nat)
    requires i < FIELDS
    ensures PlainKey(Keys()[i])
  {
  }

  lemma ListKeysPlain()
    ensures PlainKey("capability") && PlainKey("dependency") && PlainKey("conflict")
  {
  }

  function Initials(): (s: Text) { "fnvatkeprmlsa" }

  lemma KeyInitial(i: nat)
    requires i < FIELDS
    ensures |Keys()[i]| >= 4 && Keys()[i][0] == Initials()[i]
    ensures i == 3 ==> Keys()[i][1] == 'r'
    ensures i == 12 ==> Keys()[i][1] == 's'
  {
  }

  lemma KeysDistinct(i: nat, j: nat)
    requires i < j < FIELDS
    ensures Keys()[i] != Keys()[j]
  {
    hide Keys;
    KeyInitial(i);
    KeyInitial(j);
    assert Initials()[i] == Initials()[j] ==> i == 3 && j == 12;
  }

  lemma {:induction false} KeyFound(ks: seq<Text>, i: nat)
    requires i < |ks| && forall j :: 0 <= j < i ==> ks[j] != ks[i]
    ensures Find<Text>(ks, ks[i]) == i
  {
    if i > 0 {
      KeyFound(ks[1..], i - 1);
    }
  }

  // The keys of the first `i` fields.
  function Seen(i: nat): (r: set<Text>)
    requires i <= FIELDS
  {
    if i == 0 then {} else Seen(i - 1) + {Keys()[i - 1]}
  }

  lemma {:induction false} NotSeen(i: nat, j: nat)
    requires i <= j < FIELDS
    ensures Keys()[j] !in Seen(i)
  {
    hide Keys;
    if i > 0 {
      NotSeen(i - 1, j);
      KeysDistinct(i - 1, j);
    }
  }

  // ---- one line ----

  // A value that survives the line syntax.
  predicate Clean(v: Text) {
    v != [] && Free(v, '\n') && Trim(v) == v
  }

  lemma PlainFree(k: Text, c: Ch)
    requires PlainKey(k) && !KeyChar(c)
    ensures Free(k, c)
  {
  }

  lemma ParsePair(k: Text, v: Text)
    requires PlainKey(k) && Clean(v)
    ensures ParseLine(k + ['='] + v) == Pair(k, v)
  {
    hide Trim, Find;
    var line := k + ['='] + v;
    TrimFixed(v);
    TrimFixed(k);
    TrimFixed(line);
    PlainFree(k, '=');
    FindAfter(k, '=', v);
    assert KeyChar(k[0]) && KeyChar(k[|k| - 1]);
    assert line[|line| - 1] == v[|v| - 1];
    assert line[..|k|] == k && line[|k| + 1..] == v;
  }

  lemma LineEnd(k: Text, v: Text, rest: Text)
    requires PlainKey(k) && Free(v, '\n')
    ensures var text := Line(k, v) + rest; var end := |k| + 1 + |v|;
      Find<Ch>(text, '\n') == end && end < |text| && text[..end] == k + ['='] + v && text[end + 1..] == rest
  {
    hide Find;
    var a := k + ['='] + v;
    PlainFree(k, '\n');
    assert Free(a, '\n');
    FindAfter(a, '\n', rest);
    assert Line(k, v) + rest == a + ['\n'] + rest;
  }

  lemma ParseOne(k: Text, v: Text, rest: Text, d: Draft)
    requires |d.m.fields| == FIELDS && PlainKey(k) && Clean(v) && Assign(d, k, v).Some?
    ensures ParseFrom(Line(k, v) + rest, d) == ParseFrom(rest, Assign(d, k, v).value)
  {
    hide Find, ParseLine, Assign, Trim, Line;
    LineEnd(k, v, rest);
    ParsePair(k, v);
    assert Step(d, k + ['='] + v) == Assign(d, k, v);
  }

  // ---- many lines ----

  lemma {:induction false} ParseScalars(fields: seq<Text>, i: nat, d: Draft, rest: Text)
    requires |fields| == FIELDS == |d.m.fields| && i <= FIELDS && forall j :: 0 <= j < FIELDS ==> Clean(fields[j])
    requires d.m.fields[..i] == fields[..i] && d.seen == Seen(i)
    ensures ParseFrom(ScalarLines(fields, i) + rest, d) == ParseFrom(rest, Draft(d.m.(fields := fields), Seen(FIELDS)))
    decreases FIELDS - i
  {
    hide Clean, Line, ParseFrom, Keys, Find;
    if i == FIELDS {
      assert d.m.fields[..i] == d.m.fields && fields[..i] == fields;
      assert ScalarLines(fields, i) + rest == rest;
    } else {
      var next := Draft(d.m.(fields := d.m.fields[i := fields[i]]), Seen(i + 1));
      AssignScalar(d, i, fields[i]);
      KeysPlain(i);
      ParseOne(Keys()[i], fields[i], ScalarLines(fields, i + 1) + rest, d);
      assert ScalarLines(fields, i) + rest == Line(Keys()[i], fields[i]) + (ScalarLines(fields, i + 1) + rest);
      assert next.m.fields[..i + 1] == fields[..i] + [fields[i]] == fields[..i + 1];
      ParseScalars(fields, i + 1, next, rest);
    }
  }

  lemma AssignScalar(d: Draft, i: nat, v: Text)
    requires i < FIELDS == |d.m.fields| && d.seen == Seen(i)
    ensures Assign(d, Keys()[i], v) == Some(Draft(d.m.(fields := d.m.fields[i := v]), Seen(i + 1)))
  {
    hide Keys, Seen;
    KeyInitial(i);
    forall j | 0 <= j < i ensures Keys()[j] != Keys()[i] {
      KeysDistinct(j, i);
    }
    KeyFound(Keys(), i);
    NotSeen(i, i);
    SeenNext(i);
    NotListKey(i);
  }

  lemma SeenNext(i: nat)
    requires i < FIELDS
    ensures Seen(i + 1) == Seen(i) + {Keys()[i]}
  {
  }

  lemma NotListKey(i: nat)
    requires i < FIELDS
    ensures Keys()[i] != "capability" && Keys()[i] != "dependency" && Keys()[i] != "conflict"
  {
    hide Keys;
    KeyInitial(i);
    assert Initials()[i] != 'c' && Initials()[i] != 'd';
  }

  function ListKey(k: nat): (t: Text) {
    if k == 0 then "capability" else if k == 1 then "dependency" else "conflict"
  }

  // The draft with values appended to one list.
  function WithList(d: Draft, k: nat, vs: seq<Text>): (r: Draft) {
    if k == 0 then d.(m := d.m.(capabilities := d.m.capabilities + vs))
    else if k == 1 then d.(m := d.m.(dependencies := d.m.dependencies + vs))
    else d.(m := d.m.(conflicts := d.m.conflicts + vs))
  }

  lemma AssignList(d: Draft, k: nat, v: Text)
    requires |d.m.fields| == FIELDS
    ensures Assign(d, ListKey(k), v) == Some(WithList(d, k, [v]))
  {
    hide Keys, Find;
    assert "capability"[0] != "dependency"[0] && "capability"[1] != "conflict"[1] && "dependency"[0] != "conflict"[0];
  }

  lemma WithListMore(d: Draft, k: nat, v: Text, vs: seq<Text>)
    ensures WithList(WithList(d, k, [v]), k, vs) == WithList(d, k, [v] + vs) && WithList(d, k, []) == d
  {
    assert d.m.capabilities + [v] + vs == d.m.capabilities + ([v] + vs);
    assert d.m.dependencies + [v] + vs == d.m.dependencies + ([v] + vs);
    assert d.m.conflicts + [v] + vs == d.m.conflicts + ([v] + vs);
  }

  lemma {:induction false} ParseList(k: nat, vs: seq<Text>, d: Draft, rest: Text)
    requires |d.m.fields| == FIELDS && forall j :: 0 <= j < |vs| ==> Clean(vs[j])
    ensures ParseFrom(ListLines(ListKey(k), vs) + rest, d) == ParseFrom(rest, WithList(d, k, vs))
  {
    hide Clean, Line, ParseFrom, ListKey, Assign;
    if vs == [] {
      assert WithList(d, k, []) == d by { WithListMore(d, k, [], []); }
      assert ListLines(ListKey(k), vs) + rest == rest;
    } else {
      AssignList(d, k, vs[0]);
      PlainListKey(k);
      ParseOne(ListKey(k), vs[0], ListLines(ListKey(k), vs[1..]) + rest, d);
      assert ListLines(ListKey(k), vs) + rest == Line(ListKey(k), vs[0]) + (ListLines(ListKey(k), vs[1..]) + rest);
      ParseList(k, vs[1..], WithList(d, k, [vs[0]]), rest);
      WithListMore(d, k, vs[0], vs[1..]);
      assert vs == [vs[0]] + vs[1..];
    }
  }

  lemma PlainListKey(k: nat)
    ensures PlainKey(ListKey(k))
  {
    ListKeysPlain();
  }

  // ---- the round trip ----

  ghost predicate CleanList(vs: seq<Text>) {
    forall j :: 0 <= j < |vs| ==> Clean(vs[j])
  }

  ghost predicate CleanManifest(m: Manifest) {
    |m.fields| == FIELDS && CleanList(m.fields) && CleanList(m.capabilities) && CleanList(m.dependencies) &&
      CleanList(m.conflicts)
  }

  lemma SortClean(vs: seq<Text>)
    requires CleanList(vs)
    ensures CleanList(Sort(vs))
  {
    hide Clean;
    var s := Sort(vs);
    forall j | 0 <= j < |s| ensures Clean(s[j]) {
      assert s[j] in multiset(s);
      assert s[j] in vs;
    }
  }

  // Parsing a canonical text gives back the manifest with its lists sorted.
  lemma ParseCanonical(m: Manifest)
    requires CleanManifest(m)
    ensures ParseText(CanonicalText(m)) == Some(SortedLists(m))
  {
    hide ParseFrom, Sort, ListLines, ScalarLines, Seen, Clean;
    var s := SortedLists(m);
    SortClean(m.capabilities);
    SortClean(m.dependencies);
    SortClean(m.conflicts);
    SeenNone();
    ParseScalars(m.fields, 0, Blank(), ListsText(s));
    ParseLists(s, Draft(Blank().m.(fields := m.fields), Seen(FIELDS)));
  }

  lemma SeenNone()
    ensures Seen(0) == {}
  {
  }

  lemma ParseLists(m: Manifest, d: Draft)
    requires |d.m.fields| == FIELDS && CleanManifest(m)
    requires d.m.capabilities == d.m.dependencies == d.m.conflicts == []
    ensures ParseFrom(ListsText(m), d) == Some(Draft(m.(fields := d.m.fields), d.seen))
  {
    hide ListLines, Clean, ParseFrom;
    var c, p, x := ListLines("capability", m.capabilities), ListLines("dependency", m.dependencies),
      ListLines("conflict", m.conflicts);
    var d1 := WithList(d, 0, m.capabilities);
    var d2 := WithList(d1, 1, m.dependencies);
    ParseList(0, m.capabilities, d, p + x);
    ParseList(1, m.dependencies, d1, x);
    ParseList(2, m.conflicts, d2, []);
    assert x + [] == x;
    var d3 := WithList(d2, 2, m.conflicts);
    ParseNothing(d3);
    assert d3.m.capabilities == m.capabilities && d3.m.dependencies == m.dependencies && d3.m.conflicts == m.conflicts;
  }

  // Canonical texts do not change when written again.
  lemma CanonicalFixed(m: Manifest)
    requires |m.fields| == FIELDS
    ensures CanonicalText(SortedLists(m)) == CanonicalText(m)
  {
    SortFixed(m.capabilities);
    SortFixed(m.dependencies);
    SortFixed(m.conflicts);
  }

  // ---- what a canonical text determines ----

  lemma LineInjective(k: Text, v: Text, a: Text, w: Text, b: Text)
    requires PlainKey(k) && Free(v, '\n') && Free(w, '\n') && Line(k, v) + a == Line(k, w) + b
    ensures v == w && a == b
  {
    hide Find, Line;
    LineEnd(k, v, a);
    LineEnd(k, w, b);
    assert (k + ['='] + v)[|k| + 1..] == v && (k + ['='] + w)[|k| + 1..] == w;
  }

  lemma {:induction false} ScalarsInjective(f: seq<Text>, g: seq<Text>, i: nat, a: Text, b: Text)
    requires |f| == |g| == FIELDS && i <= FIELDS && ScalarLines(f, i) + a == ScalarLines(g, i) + b
    requires forall j :: 0 <= j < FIELDS ==> Free(f[j], '\n') && Free(g[j], '\n')
    ensures f[i..] == g[i..] && a == b
    decreases FIELDS - i
  {
    hide Keys, Line, Free;
    if i == FIELDS {
      assert ScalarLines(f, i) + a == a && ScalarLines(g, i) + b == b;
    } else {
      KeysPlain(i);
      var x, y := ScalarLines(f, i + 1) + a, ScalarLines(g, i + 1) + b;
      assert ScalarLines(f, i) + a == Line(Keys()[i], f[i]) + x;
      assert ScalarLines(g, i) + b == Line(Keys()[i], g[i]) + y;
      LineInjective(Keys()[i], f[i], x, g[i], y);
      ScalarsInjective(f, g, i + 1, a, b);
      assert f[i..] == [f[i]] + f[i + 1..] && g[i..] == [g[i]] + g[i + 1..];
    }
  }

  predicate Trimmed(v: Text) {
    Trim(v) == v
  }

  // Every scalar the parser stores is its own trim.
  lemma {:induction false} ParsedTrimmed(text: Text, d: Draft)
    requires |d.m.fields| == FIELDS && forall i :: 0 <= i < FIELDS ==> Trimmed(d.m.fields[i])
    requires ParseFrom(text, d).Some?
    ensures forall i :: 0 <= i < FIELDS ==> Trimmed(ParseFrom(text, d).value.m.fields[i])
    decreases |text|
  {
    hide Trimmed;
    if text != [] {
      var end := Find<Ch>(text, '\n');
      var next := Step(d, text[..end]).value;
      StepTrimmed(d, text[..end]);
      ParsedTrimmed(if end < |text| then text[end + 1..] else [], next);
    }
  }

  lemma StepTrimmed(d: Draft, line: Text)
    requires |d.m.fields| == FIELDS && forall i :: 0 <= i < FIELDS ==> Trimmed(d.m.fields[i])
    requires Step(d, line).Some?
    ensures forall i :: 0 <= i < FIELDS ==> Trimmed(Step(d, line).value.m.fields[i])
  {
    hide ParseLine, Trim, Keys, Find;
  }
}

// Package manifests: the key=value parser, the validator and the canonical form.
module Manifests {
  import opened Bytes

  // C++ characters.
  type Ch = c: char | c as int < 256
  type Text = seq<Ch>

  // The thirteen scalar fields in canonical order, then the three lists.
  datatype Manifest = Manifest(fields: seq<Text>, capabilities: seq<Text>, dependencies: seq<Text>,
    conflicts: seq<Text>)

  const FIELDS: nat := 13

  function Keys(): (ks: seq<Text>)
    ensures |ks| == FIELDS
  {
    ["format", "name", "version", "architecture", "target", "kind", "entrypoint", "payload_type", "runtime", "min_os",
     "license", "source", "asset_policy"]
  }

  const ENTRYPOINT: nat := 6
  const LICENSE: nat := 10
  const SOURCE: nat := 11

  // ---- trimming ----

  predicate Space(c: Ch) {
    c == ' ' || '\t' <= c <= '\r'
  }

  function TrimLeft(s: Text): (r: Text)
    ensures r == [] || !Space(r[0])
  {
    if s == [] || !Space(s[0]) then s else TrimLeft(s[1..])
  }

  function TrimRight(s: Text): (r: Text)
    ensures r == [] || !Space(r[|r| - 1])
    ensures |r| <= |s| && r == s[..|r|]
  {
    if s == [] || !Space(s[|s| - 1]) then s else TrimRight(s[..|s| - 1])
  }

  function Trim(s: Text): (r: Text)
    ensures r == [] || (!Space(r[0]) && !Space(r[|r| - 1]))
  {
    TrimRight(TrimLeft(s))
  }

  // A text is its own trim exactly when neither end is a space.
  lemma TrimFixed(s: Text)
    ensures Trim(s) == s <==> s == [] || (!Space(s[0]) && !Space(s[|s| - 1]))
  {
  }

  // ---- lines ----

  // The first position of `x`, or the length.
  function Find<T(==)>(s: seq<T>, x: T): (i: nat)
    ensures i <= |s| && (i < |s| ==> s[i] == x)
  {
    if s == [] || s[0] == x then 0 else 1 + Find(s[1..], x)
  }

  predicate Free(s: Text, c: Ch) {
    forall i :: 0 <= i < |s| ==> s[i] != c
  }

  lemma {:induction false} FindAfter(a: Text, c: Ch, b: Text)
    requires Free(a, c)
    ensures Find<Ch>(a + [c] + b, c) == |a|
  {
    if a == [] {
      assert (a + [c] + b)[0] == c;
    } else {
      assert (a + [c] + b)[1..] == a[1..] + [c] + b;
      FindAfter(a[1..], c, b);
    }
  }

  datatype Parsed = Skip | Bad | Pair(key: Text, value: Text)

  function ParseLine(line: Text): (r: Parsed)
    ensures r.Pair? ==> r.value != [] && Trim(r.value) == r.value
  {
    var body := if line != [] && line[|line| - 1] == '\r' then line[..|line| - 1] else line;
    var cleaned := Trim(body);
    if cleaned == [] || cleaned[0] == '#' then Skip
    else
      var equal := Find<Ch>(cleaned, '=');
      if equal == |cleaned| || equal == 0 then Bad
      else
        var key, value := Trim(cleaned[..equal]), Trim(cleaned[equal + 1..]);
        TrimFixed(value);
        if value == [] then Bad else Pair(key, value)
  }

  datatype Draft = Draft(m: Manifest, seen: set<Text>)

  function Blank(): (d: Draft) {
    Draft(Manifest(seq(FIELDS, _ => []), [], [], []), {})
  }

  function Step(d: Draft, line: Text): (r: Option<Draft>)
    requires |d.m.fields| == FIELDS
    ensures r.Some? ==> |r.value.m.fields| == FIELDS
  {
    match ParseLine(line)
    case Skip => Some(d)
    case Bad => None
    case Pair(key, value) => Assign(d, key, value)
  }

  function Assign(d: Draft, key: Text, value: Text): (r: Option<Draft>)
    requires |d.m.fields| == FIELDS
    ensures r.Some? ==> |r.value.m.fields| == FIELDS
  {
    if key == "capability" then Some(d.(m := d.m.(capabilities := d.m.capabilities + [value])))
    else if key == "dependency" then Some(d.(m := d.m.(dependencies := d.m.dependencies + [value])))
    else if key == "conflict" then Some(d.(m := d.m.(conflicts := d.m.conflicts + [value])))
    else
      var i := Find<Text>(Keys(), key);
      if i == FIELDS || key in d.seen then None
      else Some(Draft(d.m.(fields := d.m.fields[i := value]), d.seen + {key}))
  }

  // The lines of a text in order; a last line needs no newline.
  function ParseFrom(text: Text, d: Draft): (r: Option<Draft>)
    requires |d.m.fields| == FIELDS
    ensures r.Some? ==> |r.value.m.fields| == FIELDS
    decreases |text|
  {
    if text == [] then Some(d)
    else
      var end := Find<Ch>(text, '\n');
      match Step(d, text[..end])
      case None => None
      case Some(next) => ParseFrom(if end < |text| then text[end + 1..] else [], next)
  }

  function ParseText(text: Text): (r: Option<Manifest>)
    ensures r.Some? ==> |r.value.fields| == FIELDS
  {
    match ParseFrom(text, Blank())
    case None => None
    case Some(d) => Some(d.m)
  }

  // One line of the text from `position` on.
  lemma ParseNext(text: Text, position: nat, d: Draft)
    requires position < |text| && |d.m.fields| == FIELDS
    ensures var end := position + Find<Ch>(text[position..], '\n');
      position <= end <= |text| &&
      match Step(d, text[position..end])
      case None => ParseFrom(text[position..], d) == None
      case Some(next) =>
        var rest := text[if end < |text| then end + 1 else end..];
        ParseFrom(text[position..], d) == ParseFrom(rest, next)
  {
    hide Step, Find;
    var rest := text[position..];
    var n := Find<Ch>(rest, '\n');
    assert rest[..n] == text[position..position + n];
    assert n < |rest| ==> rest[n + 1..] == text[position + n + 1..];
    assert n == |rest| ==> text[position + n..] == [];
  }

  // `parse_manifest`: the line loop.
  method ParseManifest(text: Text) returns (r: Option<Manifest>)
    ensures r == ParseText(text)
  {
    hide Step, Find, ParseFrom;
    var d := Blank();
    var position := 0;
    assert text[0..] == text;
    while position < |text|
      invariant position <= |text| && |d.m.fields| == FIELDS
      invariant ParseFrom(text[position..], d) == ParseFrom(text, Blank())
    {
      ParseNext(text, position, d);
      var end := position + Find<Ch>(text[position..], '\n');
      match Step(d, text[position..end])
      case None =>
        return None;
      case Some(next) =>
        d := next;
      position := if end < |text| then end + 1 else end;
    }
    ParseNothing(d);
    assert text[position..] == [];
    return Some(d.m);
  }

  lemma ParseNothing(d: Draft)
    requires |d.m.fields| == FIELDS
    ensures ParseFrom([], d) == Some(d)
  {
  }
}

// What the paths of a valid tree look like, and that its directories close it upwards.
module TreePaths {
  import opened Volume
  import opened CowCommit

  // The path of the names `cs`, each after a slash.
  function Slashed(cs: seq<string>): (p: string) {
    if cs == [] then [] else Slashed(cs[..|cs| - 1]) + "/" + cs[|cs| - 1]
  }

  ghost predicate Names(cs: seq<string>) {
    cs != [] && forall i :: 0 <= i < |cs| ==> cs[i] != [] && '/' !in cs[i]
  }

  // ---- accepted paths ----

  lemma {:induction false} LastSlashIs(p: string, i: nat)
    requires i < |p| && p[i] == '/' && forall k :: i < k < |p| ==> p[k] != '/'
    ensures LastSlash(p) == i
  {
    if i < |p| - 1 {
      LastSlashIs(p[..|p| - 1], i);
    }
  }

  lemma {:induction false} LastSlashFound(p: string)
    requires p != [] && p[0] == '/'
    ensures p[LastSlash(p)] == '/' && forall k :: LastSlash(p) < k < |p| ==> p[k] != '/'
  {
    if |p| > 1 && p[|p| - 1] != '/' {
      LastSlashFound(p[..|p| - 1]);
    }
  }

  // The last slash of a joined path comes before its last name.
  lemma ParentOfSlashed(cs: seq<string>)
    requires Names(cs)
    ensures LastSlash(Slashed(cs)) == |Slashed(cs[..|cs| - 1])| && Slashed(cs) != []
    ensures Parent(Slashed(cs)) == Slashed(cs[..|cs| - 1])
  {
    var p, q, name := Slashed(cs), Slashed(cs[..|cs| - 1]), cs[|cs| - 1];
    hide Slashed;
    SlashedLast(cs);
    assert p[|q|] == '/';
    assert forall k :: |q| < k < |p| ==> p[k] == name[k - |q| - 1];
    LastSlashIs(p, |q|);
  }

  lemma SlashedLast(cs: seq<string>)
    requires cs != []
    ensures Slashed(cs) == Slashed(cs[..|cs| - 1]) + "/" + cs[|cs| - 1]
  {
  }

  lemma {:induction false} SafeSplit(p: string) returns (cs: seq<string>)
    requires Safe(p)
    ensures Names(cs) && Slashed(cs) == p
  {
    var i := LastSlash(p);
    LastSlashFound(p);
    var name := p[i + 1..];
    assert p == p[..i] + "/" + name;
    assert forall k :: 0 <= k < |name| ==> name[k] == p[i + 1 + k];
    if i == 0 {
      cs := [name];
      assert Slashed([]) == [] && cs[..0] == [];
    } else {
      UpperSafe(p, i);
      var upper := SafeSplit(p[..i]);
      cs := upper + [name];
      assert cs[..|upper|] == upper;
    }
  }

  lemma UpperSafe(p: string, i: nat)
    requires Safe(p) && 0 < i < |p| - 1 && p[i] == '/'
    ensures Safe(p[..i])
  {
    assert p[i - 1] != '/';
    assert forall k :: 0 <= k < i ==> p[..i][k] == p[k];
  }

  lemma {:induction false} SlashedSafe(cs: seq<string>)
    requires Names(cs)
    ensures Safe(Slashed(cs))
  {
    var n := |cs| - 1;
    if n > 0 {
      SlashedSafe(cs[..n]);
    } else {
      assert Slashed(cs[..0]) == [];
    }
    DownSafe(Slashed(cs[..n]), cs[n]);
  }

  lemma DownSafe(q: string, name: string)
    requires (q == [] || Safe(q)) && name != [] && '/' !in name
    ensures Safe(q + "/" + name)
  {
    var p := q + "/" + name;
    assert forall k :: 0 <= k < |p| ==> p[k] == if k < |q| then q[k] else if k == |q| then '/' else name[k - |q| - 1];
    assert forall k :: 0 <= k < |name| ==> name[k] in name;
  }

  // A path is accepted exactly when it is a list of names, each after a slash.
  lemma SafeExact(p: string)
    ensures Safe(p) <==> exists cs :: Names(cs) && Slashed(cs) == p
  {
    hide Safe, Names;
    if Safe(p) {
      var cs := SafeSplit(p);
    }
    if cs :| Names(cs) && Slashed(cs) == p {
      SlashedSafe(cs);
    }
  }

  // ---- the tree ----

  ghost predicate DirectoryAt(m: View, p: string) {
    p in m && m[p].Directory?
  }

  lemma ShownParent(v: Volume, p: string)
    requires ValidTree(v) && p in ViewOf(v)
    ensures Safe(p) && ParentPresent(ViewOf(v), p)
  {
    var i := ViewIndex(v, p);
    assert EntryValid(v, i);
    ExistingHasParent(v, i);
  }

  // Every proper prefix of a path shown is shown as a directory.
  lemma {:induction false} Ancestor(v: Volume, cs: seq<string>, k: nat)
    requires ValidTree(v) && Names(cs) && Slashed(cs) in ViewOf(v) && 0 < k < |cs|
    ensures DirectoryAt(ViewOf(v), Slashed(cs[..k]))
    decreases |cs|
  {
    hide ValidTree, ViewOf, Slashed, LastSlash;
    var n := |cs| - 1;
    ShownParent(v, Slashed(cs));
    ParentOfSlashed(cs);
    ParentOfSlashed(cs[..n]);
    if k < n {
      Ancestor(v, cs[..n], k);
      assert cs[..n][..k] == cs[..k];
    }
  }

  // A valid tree is closed upwards: a path shown is a list of names, and each list of fewer of
  // them from the front is a directory shown.
  lemma ClosedUpwards(v: Volume, p: string) returns (cs: seq<string>)
    requires ValidTree(v) && p in ViewOf(v)
    ensures Names(cs) && Slashed(cs) == p
    ensures forall k :: 0 < k < |cs| ==> DirectoryAt(ViewOf(v), Slashed(cs[..k]))
  {
    hide EntryValid, Distinct, IsDirectory, ViewOf, Slashed;
    ShownParent(v, p);
    cs := SafeSplit(p);
    forall k | 0 < k < |cs|
      ensures DirectoryAt(ViewOf(v), Slashed(cs[..k]))
    {
      Ancestor(v, cs, k);
    }
  }
}

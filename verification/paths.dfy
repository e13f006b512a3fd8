/**
 * POSIX path handling as the engine uses it (`os.path.basename`,
 * `os.path.join` with two arguments) and the artefact naming rule
 * `<basename>_<timestamp>.enc`.
 */
module Paths {

  /** `os.path.basename`: everything after the last `/` (all of `p` if it has none). */
  function Basename(p: string): (r: string)
    ensures '/' !in r
    ensures |r| <= |p| && r == p[|p| - |r|..]
    ensures |r| < |p| ==> p[|p| - |r| - 1] == '/'
  {
    if |p| == 0 then ""
    else if p[|p| - 1] == '/' then ""
    else Basename(p[..|p| - 1]) + [p[|p| - 1]]
  }

  /** `os.path.join(a, b)`: an absolute `b` wins; otherwise one `/` between the parts. */
  function Join(a: string, b: string): (r: string)
    ensures |b| > 0 && b[0] == '/' ==> r == b
    ensures !(|b| > 0 && b[0] == '/') ==>
              |r| == |a| + |b| + (if |a| == 0 || a[|a| - 1] == '/' then 0 else 1)
              && r[..|a|] == a && r[|r| - |b|..] == b
    ensures !(|b| > 0 && b[0] == '/') && |a| > 0 ==> r[|r| - |b| - 1] == '/'
  {
    if |b| > 0 && b[0] == '/' then b
    else if |a| == 0 || a[|a| - 1] == '/' then a + b
    else a + "/" + b
  }

  /** The basename of anything that ends in `/` followed by a slash-free name is that name. */
  lemma {:induction false} BasenameAfterSlash(dir: string, name: string)
    requires '/' !in name
    requires |dir| == 0 || dir[|dir| - 1] == '/'
    ensures Basename(dir + name) == name
  {
    if |name| > 0 {
      var p := dir + name;
      assert p[..|p| - 1] == dir + name[..|name| - 1];
      BasenameAfterSlash(dir, name[..|name| - 1]);
      assert name == name[..|name| - 1] + [name[|name| - 1]];
    } else {
      assert dir + name == dir;
    }
  }

  /** Joining a directory and a plain file name, then taking the basename, gives the name back. */
  lemma BasenameOfJoin(dir: string, name: string)
    requires '/' !in name
    ensures Basename(Join(dir, name)) == name
  {
    if |dir| == 0 || dir[|dir| - 1] == '/' {
      BasenameAfterSlash(dir, name);
    } else {
      assert dir + "/" + name == (dir + "/") + name;
      BasenameAfterSlash(dir + "/", name);
    }
  }

  /** The artefact file name `<name>_<timestamp>.enc`. */
  function ArtefactName(name: string, ts: string): string
  {
    name + "_" + ts + ".enc"
  }

  /**
   * With version keys of one fixed width, the artefact name determines the
   * original name and the version key it was built from.
   */
  lemma ArtefactNameInjective(n1: string, t1: string, n2: string, t2: string)
    requires |t1| == |t2|
    ensures ArtefactName(n1, t1) == ArtefactName(n2, t2) <==> n1 == n2 && t1 == t2
  {
    var a1, a2 := ArtefactName(n1, t1), ArtefactName(n2, t2);
    if a1 == a2 {
      assert |n1| == |n2|;
      assert n1 == a1[..|n1|] == a2[..|n2|] == n2;
      assert t1 == a1[|n1| + 1..|n1| + 1 + |t1|] == a2[|n2| + 1..|n2| + 1 + |t2|] == t2;
    }
  }

  /** An artefact name is slash-free when its parts are, so it survives `Join` and `Basename`. */
  lemma ArtefactNameSlashFree(name: string, ts: string)
    requires '/' !in name && '/' !in ts
    ensures '/' !in ArtefactName(name, ts)
  {
    var a := ArtefactName(name, ts);
    forall i | 0 <= i < |a|
      ensures a[i] != '/'
    {
      if i < |name| {
        assert a[i] == name[i];
      } else if |name| < i < |name| + 1 + |ts| {
        assert a[i] == ts[i - |name| - 1];
      }
    }
  }
}

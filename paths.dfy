/** The two string rules that decide the key an entry is stored under and
    whether a walked file is packed at all. */
module Paths {

  /** `rel_path.replace("\\", "/")`: every backslash becomes a forward
      slash and nothing else changes. */
  function NormalizePath(p: string): (r: string)
    ensures |r| == |p|
    ensures forall i :: 0 <= i < |p| ==> r[i] == (if p[i] == '\\' then '/' else p[i])
  {
    if p == [] then [] else [if p[0] == '\\' then '/' else p[0]] + NormalizePath(p[1..])
  }

  /** A normalised path holds no backslash, normalising it again changes
      nothing, and a path is left unchanged exactly when it had no backslash. */
  lemma NormalizePathProperties(p: string)
    ensures '\\' !in NormalizePath(p)
    ensures NormalizePath(NormalizePath(p)) == NormalizePath(p)
    ensures NormalizePath(p) == p <==> '\\' !in p
  {
    var r := NormalizePath(p);
    if '\\' in p {
      var i :| 0 <= i < |p| && p[i] == '\\';
      assert r[i] != p[i];
    }
  }

  /** Python's `s.endswith(suffix)`. */
  predicate EndsWith(s: string, suffix: string)
  {
    |suffix| <= |s| && s[|s| - |suffix|..] == suffix
  }

  /** EndsWith says that s is some string followed by the suffix. */
  lemma EndsWithSplit(s: string, suffix: string)
    ensures EndsWith(s, suffix) <==> exists u :: u + suffix == s
  {
    if EndsWith(s, suffix) {
      var u := s[..|s| - |suffix|];
      assert u + suffix == s;
    }
    if exists u :: u + suffix == s {
      var u :| u + suffix == s;
      assert s[|s| - |suffix|..] == (u + suffix)[|u|..];
    }
  }

  /** The packer's skip test: the output archive itself (compared with the
      normalised relative path) and any Python file. */
  predicate IsSkipped(relPath: string, outputFile: string)
  {
    relPath == outputFile || EndsWith(relPath, ".py")
  }
}

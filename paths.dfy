/** POSIX path joining as the validator uses it (`os.path.join(directory, name)` with two
    components) to place each worker's files. */
module Paths {

  predicate IsAbsolute(p: string) {
    |p| > 0 && p[0] == '/'
  }

  /** `posixpath.join(a, b)`: an absolute `b` replaces `a`; otherwise `b` is appended, with a
      `/` between them unless `a` is empty or already ends in one. */
  function Join(a: string, b: string): (p: string) {
    if IsAbsolute(b) then b else a + Separator(a) + b
  }

  /** The separator Join puts between a directory and a relative name. */
  function Separator(a: string): (sep: string) {
    if |a| == 0 || a[|a| - 1] == '/' then "" else "/"
  }

  /** Under one directory, relative names give the same path exactly when they are equal. */
  lemma JoinInjective(a: string, b1: string, b2: string)
    requires !IsAbsolute(b1) && !IsAbsolute(b2)
    ensures Join(a, b1) == Join(a, b2) <==> b1 == b2
  {
    var pre := a + Separator(a);
    if Join(a, b1) == Join(a, b2) {
      assert Join(a, b1) == pre + b1 && Join(a, b2) == pre + b2;
      assert b1 == (pre + b1)[|pre|..];
      assert b2 == (pre + b2)[|pre|..];
    }
  }
}

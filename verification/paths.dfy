/** POSIX `os.path.join` of two components. */
module Paths {
  import opened Text

  const SEP: char := '/'

  /** `os.path.join(a, b)`: an absolute `b` replaces `a`; otherwise `b` is
      appended, with a separator unless `a` is empty or already ends in one. */
  function Join(a: string, b: string): (r: string)
    ensures EndsWith(r, b)
    ensures (b == [] || b[0] != SEP) ==> StartsWith(r, a)
  {
    EndsWithConcat(a, b);
    EndsWithConcat(a + [SEP], b);
    assert (a + [SEP] + b)[..|a|] == a;
    if |b| > 0 && b[0] == SEP then b
    else if a == [] || a[|a| - 1] == SEP then a + b
    else a + [SEP] + b
  }
}

/** `ensure_unique_filename`: when the target path is taken, try
    `<base>_1<ext>`, `<base>_2<ext>`, ... where `(base, ext)` is the
    `splitext` of the original path, and take the first one that is free.
    The filesystem is the finite set of paths that exist. */
module UniqueName {
  import Decimal
  import Paths

  /** The n-th candidate name: `f"{base}_{n}{ext}"`. */
  function Candidate(base: string, ext: string, n: nat): (c: string)
    ensures |c| > |base| + |ext|
  {
    base + "_" + Decimal.NatToString(n) + ext
  }

  /** Different counters give different candidates, so the search cannot loop. */
  lemma CandidateInjective(base: string, ext: string, m: nat, n: nat)
    requires Candidate(base, ext, m) == Candidate(base, ext, n)
    ensures m == n
  {
    var c := Candidate(base, ext, m);
    var dm, dn := Decimal.NatToString(m), Decimal.NatToString(n);
    assert c[|base| + 1..|c| - |ext|] == dm;
    assert Candidate(base, ext, n)[|base| + 1..|c| - |ext|] == dn;
    Decimal.NatToStringInjective(m, n);
  }

  /** The candidates with counters 1 to n. */
  function CandidateSet(base: string, ext: string, n: nat): (s: set<string>)
    ensures |s| == n
    ensures forall k :: 1 <= k <= n ==> Candidate(base, ext, k) in s
    ensures forall x :: x in s ==> exists k :: 1 <= k <= n && x == Candidate(base, ext, k)
  {
    if n == 0 then {}
    else
      var prev := CandidateSet(base, ext, n - 1);
      var c := Candidate(base, ext, n);
      assert c !in prev by {
        if c in prev {
          var k :| 1 <= k <= n - 1 && c == Candidate(base, ext, k);
          CandidateInjective(base, ext, k, n);
        }
      }
      prev + {c}
  }

  /** If the first n candidates all exist, the filesystem has at least n entries:
      the bound that makes the search terminate. */
  lemma TakenBound(base: string, ext: string, existing: set<string>, n: nat)
    requires forall k :: 1 <= k <= n ==> Candidate(base, ext, k) in existing
    ensures n <= |existing|
  {
    var s := CandidateSet(base, ext, n);
    assert s <= existing;
    SubsetCard(s, existing);
  }

  lemma {:induction false} SubsetCard(a: set<string>, b: set<string>)
    requires a <= b
    ensures |a| <= |b|
    decreases |a|
  {
    if a != {} {
      var x :| x in a;
      SubsetCard(a - {x}, b - {x});
    }
  }

  /** The least counter at or above `from` whose candidate is free, given that
      every candidate below `from` is taken. */
  function LeastFreeCounter(base: string, ext: string, existing: set<string>, from: nat): (n: nat)
    requires from >= 1
    requires forall k :: 1 <= k < from ==> Candidate(base, ext, k) in existing
    ensures n >= from
    ensures Candidate(base, ext, n) !in existing
    ensures forall k :: 1 <= k < n ==> Candidate(base, ext, k) in existing
    decreases |existing| + 1 - from
  {
    if Candidate(base, ext, from) !in existing then from
    else
      TakenBound(base, ext, existing, from);
      LeastFreeCounter(base, ext, existing, from + 1)
  }

  /** The path `ensure_unique_filename` settles on: the path itself when it is
      free, otherwise the candidate with the least free counter. */
  function UniqueFilename(path: string, existing: set<string>): (r: string)
    ensures r !in existing
    ensures path !in existing ==> r == path
    ensures path in existing ==>
      exists n :: n >= 1 && r == Candidate(Paths.SplitExt(path).0, Paths.SplitExt(path).1, n)
        && forall k :: 1 <= k < n ==> Candidate(Paths.SplitExt(path).0, Paths.SplitExt(path).1, k) in existing
  {
    if path !in existing then path
    else
      var (base, ext) := Paths.SplitExt(path);
      Candidate(base, ext, LeastFreeCounter(base, ext, existing, 1))
  }

  /** `ensure_unique_filename` as written: a loop that keeps trying the next
      counter while the current path exists. */
  method EnsureUniqueFilename(filepath: string, existing: set<string>) returns (r: string)
    ensures r !in existing
    ensures filepath !in existing ==> r == filepath
    ensures r == UniqueFilename(filepath, existing)
  {
    var (base, ext) := Paths.SplitExt(filepath);
    var counter := 1;
    r := filepath;
    while r in existing
      invariant 1 <= counter <= |existing| + 2
      invariant counter == 1 ==> r == filepath
      invariant counter > 1 ==> filepath in existing && r == Candidate(base, ext, counter - 1)
      invariant forall k :: 1 <= k < counter - 1 ==> Candidate(base, ext, k) in existing
      decreases |existing| + 2 - counter
    {
      TakenBound(base, ext, existing, counter - 1);
      r := Candidate(base, ext, counter);
      counter := counter + 1;
    }
  }
}

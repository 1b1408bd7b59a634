/** Choosing a name that does not collide with the entries already in a
    destination directory: the name itself when it is free, otherwise
    `base_1.ext`, `base_2.ext`, ... whichever comes first that is free. */
module UniqueName {
  import opened Text
  import opened Paths

  /** The k-th probe: `f"{base_name}_{counter}{extension}"`. */
  function Candidate(base: string, k: nat, ext: string): string
  {
    base + "_" + NatToString(k) + ext
  }

  /** Distinct counters give distinct probes. */
  lemma {:induction false} CandidateInjective(base: string, ext: string, j: nat, k: nat)
    requires Candidate(base, j, ext) == Candidate(base, k, ext)
    ensures j == k
  {
    var a, b := NatToString(j), NatToString(k);
    var c := Candidate(base, j, ext);
    assert |a| == |b|;
    assert c[|base| + 1..|base| + 1 + |a|] == a;
    assert Candidate(base, k, ext)[|base| + 1..|base| + 1 + |b|] == b;
  }

  /** No probe is the name it was derived from: a probe is longer. */
  lemma CandidateIsNotOriginal(filename: string, k: nat)
    ensures Candidate(SplitExt(filename).0, k, SplitExt(filename).1) != filename
  {
    SplitExtSpec(filename);
  }

  /** At most |existing| probes can be taken: if probes 1..n are all taken, n <= |existing|. */
  lemma {:induction false} SuffixBound(existing: set<string>, base: string, ext: string, n: nat)
    requires forall j :: 1 <= j <= n ==> Candidate(base, j, ext) in existing
    ensures n <= |existing|
  {
    if n > 0 {
      var c := Candidate(base, n, ext);
      var rest := existing - {c};
      forall j | 1 <= j <= n - 1 ensures Candidate(base, j, ext) in rest {
        if Candidate(base, j, ext) == c {
          CandidateInjective(base, ext, j, n);
        }
      }
      SuffixBound(rest, base, ext, n - 1);
    }
  }

  /** When the name itself is taken as well, at most |existing| - 1 probes can be taken. */
  lemma ProbeBound(existing: set<string>, filename: string, n: nat)
    requires filename in existing
    requires forall j :: 1 <= j <= n ==> Candidate(SplitExt(filename).0, j, SplitExt(filename).1) in existing
    ensures n + 1 <= |existing|
  {
    var (base, ext) := SplitExt(filename);
    var rest := existing - {filename};
    forall j | 1 <= j <= n ensures Candidate(base, j, ext) in rest {
      CandidateIsNotOriginal(filename, j);
    }
    SuffixBound(rest, base, ext, n);
  }

  /** The smallest counter, from `k` on, whose probe is free. */
  function LeastFreeSuffix(existing: set<string>, base: string, ext: string, k: nat): (r: nat)
    requires 1 <= k
    requires forall j :: 1 <= j < k ==> Candidate(base, j, ext) in existing
    ensures k <= r <= |existing| + 1
    ensures Candidate(base, r, ext) !in existing
    ensures forall j :: 1 <= j < r ==> Candidate(base, j, ext) in existing
    decreases |existing| + 1 - k
  {
    SuffixBound(existing, base, ext, k - 1);
    if Candidate(base, k, ext) !in existing then
      k
    else
      SuffixBound(existing, base, ext, k);
      LeastFreeSuffix(existing, base, ext, k + 1)
  }

  /** The name `get_unique_filename` returns for `filename` in a directory whose entries are `existing`. */
  function UniqueFilename(existing: set<string>, filename: string): (r: string)
    ensures r !in existing
    ensures filename !in existing ==> r == filename
  {
    if filename !in existing then
      filename
    else
      var (base, ext) := SplitExt(filename);
      Candidate(base, LeastFreeSuffix(existing, base, ext, 1), ext)
  }

  /** A taken name is replaced by `base_k.ext` with the smallest k >= 1 whose
      probe is free, where `base + ext` is the name; k is at most |existing|. */
  lemma UniqueFilenameIsLeastProbe(existing: set<string>, filename: string)
    requires filename in existing
    ensures var (base, ext) := SplitExt(filename);
      exists k :: 1 <= k <= |existing|
        && base + ext == filename
        && UniqueFilename(existing, filename) == Candidate(base, k, ext)
        && Candidate(base, k, ext) !in existing
        && (forall j :: 1 <= j < k ==> Candidate(base, j, ext) in existing)
  {
    var (base, ext) := SplitExt(filename);
    var k := LeastFreeSuffix(existing, base, ext, 1);
    ProbeBound(existing, filename, k - 1);
    SplitExtSpec(filename);
  }

  /** Once the first result has been added, resolving the same name again in
      any folder that still holds everything the first folder held gives a
      strictly larger counter: no counter is ever reused. */
  lemma RepeatedNameGetsLargerSuffix(existing: set<string>, later: set<string>, filename: string)
    requires filename in existing
    requires existing <= later
    requires UniqueFilename(existing, filename) in later
    ensures var (base, ext) := SplitExt(filename);
      LeastFreeSuffix(later, base, ext, 1) > LeastFreeSuffix(existing, base, ext, 1)
  {
  }

  /** A second `a.jpg` in a folder holding `a.jpg` and `b.png` is stored as `a_1.jpg`. */
  lemma SecondCopyGetsSuffixOne()
    ensures UniqueFilename({"a.jpg", "b.png"}, "a.jpg") == "a_1.jpg"
  {
    SplitAtLastDot("a.jpg", 1);
    assert "a.jpg"[..1] == "a" && "a.jpg"[1..] == ".jpg";
    assert SplitExt("a.jpg") == ("a", ".jpg");
    assert NatToString(1) == "1";
    assert Candidate("a", 1, ".jpg") == "a_1.jpg";
  }

  /** `get_unique_filename`: the probing loop. */
  method GetUniqueFilename(existing: set<string>, filename: string) returns (r: string)
    ensures r == UniqueFilename(existing, filename)
  {
    var (base, ext) := SplitExt(filename);
    var counter := 1;
    r := filename;
    while r in existing
      invariant 1 <= counter <= |existing| + 1
      invariant counter == 1 ==> r == filename
      invariant counter > 1 ==> filename in existing && r == Candidate(base, counter - 1, ext)
      invariant forall j :: 1 <= j < counter - 1 ==> Candidate(base, j, ext) in existing
      decreases |existing| + 1 - counter
    {
      ProbeBound(existing, filename, counter - 1);
      r := Candidate(base, counter, ext);
      counter := counter + 1;
    }
    if counter > 1 {
      assert LeastFreeSuffix(existing, base, ext, 1) == counter - 1;
    }
  }
}

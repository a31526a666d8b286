/**
  The collecting loop of `scan_servers_parallel`: every server file is checked by a
  worker, and the coordinator folds the results in the order the workers finish,
  counting files and violations and concatenating the violation lists.
*/
module Scan {
  import opened Wrappers
  import opened Text
  import opened Requirements
  import opened Customers
  import opened Evaluator

  /** What the worker for each file reports, in the order of `files`. */
  function Outcomes(files: seq<ServerFile>, requirements: Table, userPackages: Index): (lists: seq<seq<Violation>>)
    requires requirements.Valid()
    ensures |lists| == |files|
    ensures forall i :: 0 <= i < |files| ==> lists[i] == FileViolations(files[i], requirements, userPackages)
  {
    seq(|files|, i requires 0 <= i < |files| => FileViolations(files[i], requirements, userPackages))
  }

  /** The lists concatenated in order, as `extend` builds them. */
  function Concat(lists: seq<seq<Violation>>): (all: seq<Violation>)
    ensures (forall i :: 0 <= i < |lists| ==> lists[i] == []) ==> all == []
  {
    if lists == [] then []
    else
      var init := lists[..|lists| - 1];
      assert forall i :: 0 <= i < |init| ==> init[i] == lists[i];
      Concat(init) + lists[|lists| - 1]
  }

  /** The lengths of the lists added up, as `found_servers += len(result)` does. */
  function Total(lists: seq<seq<Violation>>): (total: nat)
    ensures forall i :: 0 <= i < |lists| ==> |lists[i]| <= total
    ensures total == 0 <==> forall i :: 0 <= i < |lists| ==> lists[i] == []
  {
    if lists == [] then 0
    else
      assert forall i :: 1 <= i < |lists| ==> lists[1..][i - 1] == lists[i];
      |lists[0]| + Total(lists[1..])
  }

  /** The violations of `files`, collected in that order. */
  function Collected(files: seq<ServerFile>, requirements: Table, userPackages: Index): (all: seq<Violation>)
    requires requirements.Valid()
    ensures |all| == Total(Outcomes(files, requirements, userPackages))
  {
    TotalIsLength(Outcomes(files, requirements, userPackages));
    Concat(Outcomes(files, requirements, userPackages))
  }

  /**
    `scan_servers_parallel` over already-read files. `completed` is the order in which
    the workers finish, any rearrangement of `files`.
  */
  method ScanServersParallel(files: seq<ServerFile>, completed: seq<ServerFile>,
                             requirements: Table, userPackages: Index)
    returns (unauthorizedServers: seq<Violation>, processedFiles: nat, foundServers: nat)
    requires requirements.Valid()
    requires multiset(completed) == multiset(files)
    ensures files == [] ==> unauthorizedServers == [] && processedFiles == 0 && foundServers == 0
    ensures processedFiles == |files|
    ensures foundServers == |unauthorizedServers| == Total(Outcomes(files, requirements, userPackages))
    ensures unauthorizedServers == Collected(completed, requirements, userPackages)
    ensures multiset(unauthorizedServers) == multiset(Collected(files, requirements, userPackages))
  {
    var totalFiles := |files|;
    if totalFiles == 0 {
      return [], 0, 0;
    }
    unauthorizedServers := [];
    processedFiles := 0;
    foundServers := 0;
    for n := 0 to |completed|
      invariant processedFiles == n
      invariant unauthorizedServers == Concat(Outcomes(completed[..n], requirements, userPackages))
      invariant foundServers == |unauthorizedServers|
    {
      CollectStep(completed, n, requirements, userPackages);
      processedFiles := processedFiles + 1;
      var result, error := ProcessJsonFile(completed[n], requirements, userPackages);
      if result != [] {
        foundServers := foundServers + |result|;
        unauthorizedServers := unauthorizedServers + result;
      } else {
        assert unauthorizedServers + result == unauthorizedServers;
      }
    }
    assert completed[..|completed|] == completed;
    CompletionOrderIrrelevant(files, completed, requirements, userPackages);
  }

  /** Collecting in completion order gives the violations of file order, each as often. */
  lemma CompletionOrderIrrelevant(files: seq<ServerFile>, completed: seq<ServerFile>,
                                  requirements: Table, userPackages: Index)
    requires requirements.Valid()
    requires multiset(completed) == multiset(files)
    ensures |completed| == |files|
    ensures multiset(Collected(completed, requirements, userPackages)) ==
      multiset(Collected(files, requirements, userPackages))
    ensures |Collected(completed, requirements, userPackages)| == Total(Outcomes(files, requirements, userPackages))
  {
    assert |completed| == |multiset(completed)| == |files|;
    OutcomesPermutation(completed, files, requirements, userPackages);
    ConcatPermutation(Outcomes(completed, requirements, userPackages), Outcomes(files, requirements, userPackages));
    var inOrder := Collected(files, requirements, userPackages);
    var asCompleted := Collected(completed, requirements, userPackages);
    assert |asCompleted| == |multiset(asCompleted)| == |multiset(inOrder)| == |inOrder|;
  }

  /** Collecting one more file appends its violations. */
  lemma CollectStep(files: seq<ServerFile>, n: nat, requirements: Table, userPackages: Index)
    requires requirements.Valid()
    requires n < |files|
    ensures Concat(Outcomes(files[..n + 1], requirements, userPackages)) ==
      Concat(Outcomes(files[..n], requirements, userPackages)) + FileViolations(files[n], requirements, userPackages)
  {
    OutcomesStep(files, n, requirements, userPackages);
    var lists := Outcomes(files[..n + 1], requirements, userPackages);
    assert lists[..|lists| - 1] == Outcomes(files[..n], requirements, userPackages);
  }

  /** Checking one more file adds its outcome at the end. */
  lemma OutcomesStep(files: seq<ServerFile>, n: nat, requirements: Table, userPackages: Index)
    requires requirements.Valid()
    requires n < |files|
    ensures Outcomes(files[..n + 1], requirements, userPackages) ==
      Outcomes(files[..n], requirements, userPackages) + [FileViolations(files[n], requirements, userPackages)]
  {
  }

  /** Concatenating two batches is concatenating each and joining the results. */
  lemma {:induction false} ConcatAppend(a: seq<seq<Violation>>, b: seq<seq<Violation>>)
    ensures Concat(a + b) == Concat(a) + Concat(b)
  {
    if b == [] {
      assert a + b == a;
    } else {
      var init := b[..|b| - 1];
      ConcatAppend(a, init);
      assert (a + b)[..|a + b| - 1] == a + init;
      assert (a + b)[|a + b| - 1] == b[|b| - 1];
      assert Concat(a + b) == (Concat(a) + Concat(init)) + b[|b| - 1];
    }
  }

  /** The counter agrees with the length of the concatenated list. */
  lemma {:induction false} TotalIsLength(lists: seq<seq<Violation>>)
    ensures Total(lists) == |Concat(lists)|
  {
    if lists != [] {
      TotalIsLength(lists[1..]);
      ConcatAppend([lists[0]], lists[1..]);
      assert [lists[0]] + lists[1..] == lists;
      assert [lists[0]][..0] == [];
    }
  }

  /** Concatenating the same lists in another order gives the same violations, each as often. */
  lemma {:induction false} ConcatPermutation(a: seq<seq<Violation>>, b: seq<seq<Violation>>)
    requires multiset(a) == multiset(b)
    ensures multiset(Concat(a)) == multiset(Concat(b))
  {
    if a == [] {
      assert |b| == |multiset(b)| == 0;
    } else {
      var n := |a| - 1;
      var x := a[n];
      var i := RemoveOne(a, b);
      var rest := b[..i] + b[i + 1..];
      ConcatPermutation(a[..n], rest);
      ConcatAppend(b[..i] + [x], b[i + 1..]);
      ConcatAppend(b[..i], [x]);
      ConcatAppend(b[..i], b[i + 1..]);
      assert Concat([x]) == x by {
        assert [x][..0] == [];
      }
      ConcatAppend(a[..n], [x]);
      assert a == a[..n] + [x];
    }
  }

  /**
    Taking the last element of `a` out of `a`, and one occurrence of it out of a
    rearrangement `b`, leaves rearrangements of each other.
  */
  lemma RemoveOne<T>(a: seq<T>, b: seq<T>) returns (i: nat)
    requires a != [] && multiset(a) == multiset(b)
    ensures i < |b| && b[i] == a[|a| - 1]
    ensures b == b[..i] + [b[i]] + b[i + 1..]
    ensures multiset(a[..|a| - 1]) == multiset(b[..i] + b[i + 1..])
  {
    var n := |a| - 1;
    assert a == a[..n] + [a[n]];
    assert a[n] in multiset(b);
    i :| 0 <= i < |b| && b[i] == a[n];
    assert b == b[..i] + [b[i]] + b[i + 1..];
    assert multiset(a[..n]) == multiset(a) - multiset{a[n]};
    assert multiset(b[..i] + b[i + 1..]) == multiset(b) - multiset{b[i]};
  }

  /** The outcomes of two batches of files are the outcomes of each, joined. */
  lemma OutcomesAppend(a: seq<ServerFile>, b: seq<ServerFile>, requirements: Table, userPackages: Index)
    requires requirements.Valid()
    ensures Outcomes(a + b, requirements, userPackages) ==
      Outcomes(a, requirements, userPackages) + Outcomes(b, requirements, userPackages)
  {
  }

  /** Files in another order have their outcomes in that order. */
  lemma {:induction false} OutcomesPermutation(a: seq<ServerFile>, b: seq<ServerFile>, requirements: Table, userPackages: Index)
    requires requirements.Valid()
    requires multiset(a) == multiset(b)
    ensures multiset(Outcomes(a, requirements, userPackages)) == multiset(Outcomes(b, requirements, userPackages))
  {
    if a == [] {
      assert |b| == |multiset(b)| == 0;
    } else {
      var n := |a| - 1;
      var x := a[n];
      var i := RemoveOne(a, b);
      var rest := b[..i] + b[i + 1..];
      OutcomesPermutation(a[..n], rest, requirements, userPackages);
      OutcomesAppend(b[..i] + [x], b[i + 1..], requirements, userPackages);
      OutcomesAppend(b[..i], [x], requirements, userPackages);
      OutcomesAppend(b[..i], b[i + 1..], requirements, userPackages);
      OutcomesAppend(a[..n], [x], requirements, userPackages);
      assert a == a[..n] + [x];
    }
  }

  /** A violation is collected exactly when some file yields it. */
  lemma {:induction false} ConcatIff(lists: seq<seq<Violation>>, v: Violation)
    ensures v in Concat(lists) <==> exists i :: 0 <= i < |lists| && v in lists[i]
  {
    if lists != [] {
      var n := |lists| - 1;
      ConcatIff(lists[..n], v);
      if exists i :: 0 <= i < |lists| && v in lists[i] {
        var i :| 0 <= i < |lists| && v in lists[i];
        if i < n {
          assert lists[..n][i] == lists[i];
        }
      }
      if v in Concat(lists[..n]) {
        var i :| 0 <= i < n && v in lists[..n][i];
        assert lists[i] == lists[..n][i];
      }
    }
  }

  /** A violation is in the scan's result exactly when the check of some file reports it. */
  lemma CollectedIff(files: seq<ServerFile>, requirements: Table, userPackages: Index, v: Violation)
    requires requirements.Valid()
    ensures v in Collected(files, requirements, userPackages) <==>
      exists i :: 0 <= i < |files| && v in FileViolations(files[i], requirements, userPackages)
  {
    ConcatIff(Outcomes(files, requirements, userPackages), v);
  }

  /** A file that could not be read adds nothing: one bad file does not disturb the others. */
  lemma FailedFileAddsNothing(before: seq<ServerFile>, bad: ServerFile, after: seq<ServerFile>,
                              requirements: Table, userPackages: Index)
    requires requirements.Valid()
    requires bad.content.Failed?
    ensures Collected(before + [bad] + after, requirements, userPackages) ==
      Collected(before + after, requirements, userPackages)
  {
    OutcomesAppend(before + [bad], after, requirements, userPackages);
    OutcomesAppend(before, [bad], requirements, userPackages);
    OutcomesAppend(before, after, requirements, userPackages);
    var none: seq<Violation> := [];
    assert Outcomes([bad], requirements, userPackages) == [none];
    ConcatSkipsEmpty(Outcomes(before, requirements, userPackages), Outcomes(after, requirements, userPackages));
  }

  lemma ConcatSkipsEmpty(pre: seq<seq<Violation>>, post: seq<seq<Violation>>)
    ensures Concat(pre + [[]] + post) == Concat(pre + post)
  {
    var none: seq<Violation> := [];
    ConcatAppend(pre + [none], post);
    ConcatAppend(pre, [none]);
    ConcatAppend(pre, post);
    assert [none][..0] == [];
  }

  /** Three lists concatenated. */
  lemma ConcatThree(x: seq<Violation>, y: seq<Violation>, z: seq<Violation>)
    ensures Concat([x, y, z]) == x + y + z
  {
    assert [x, y, z][..2] == [x, y] && [x, y][..1] == [x] && [x][..0] == [];
    assert Concat([x]) == x;
    assert Concat([x, y]) == x + y;
  }

  // The scenario: one rule, alice owns the package, bob owns nothing, carol is unknown.

  const GpuRules := Table(["gpu-cluster"], map["gpu-cluster" := "pkg-gpu"])
  const GpuOwners: Index := map["alice" := {"pkg-gpu"}, "bob" := {}]

  function GpuServer(code: string, owner: string): ServerFile {
    ServerFile(code + ".json",
      Decoded(Record(Some(code), Some(ServerData(Some(["gpu-cluster"]), Some(owner), None)))))
  }

  function GpuReport(code: string, owner: string): Violation {
    Violation(code, owner, Missing, "gpu-cluster", "pkg-gpu", code + ".json")
  }

  /** srv1 (alice) passes; srv2 (bob) and srv3 (carol, unknown) are reported, in any finishing order. */
  lemma GpuScenario(completed: seq<ServerFile>)
    requires multiset(completed) == multiset(GpuFiles())
    ensures GpuRules.Valid()
    ensures multiset(Collected(completed, GpuRules, GpuOwners)) ==
      multiset{GpuReport("srv2", "bob"), GpuReport("srv3", "carol")}
    ensures |Collected(completed, GpuRules, GpuOwners)| == 2
  {
    var files := GpuFiles();
    GpuInFileOrder();
    OutcomesPermutation(completed, files, GpuRules, GpuOwners);
    ConcatPermutation(Outcomes(completed, GpuRules, GpuOwners), Outcomes(files, GpuRules, GpuOwners));
  }

  function GpuFiles(): seq<ServerFile> {
    [GpuServer("srv1", "alice"), GpuServer("srv2", "bob"), GpuServer("srv3", "carol")]
  }

  /** In the order srv1, srv2, srv3 the scan reports srv2 and then srv3. */
  lemma GpuInFileOrder()
    ensures GpuRules.Valid()
    ensures Collected(GpuFiles(), GpuRules, GpuOwners) == [GpuReport("srv2", "bob"), GpuReport("srv3", "carol")]
  {
    var r2, r3 := GpuReport("srv2", "bob"), GpuReport("srv3", "carol");
    GpuOutcomes();
    ConcatThree([], [r2], [r3]);
    assert [] + [r2] + [r3] == [r2, r3];
  }

  /** The three workers' results in file order. */
  lemma GpuOutcomes()
    ensures GpuRules.Valid()
    ensures Outcomes(GpuFiles(), GpuRules, GpuOwners) == [[], [GpuReport("srv2", "bob")], [GpuReport("srv3", "carol")]]
  {
    GpuServerReport("srv1", "alice");
    GpuServerReport("srv2", "bob");
    GpuServerReport("srv3", "carol");
    OutcomesOfThree(GpuServer("srv1", "alice"), GpuServer("srv2", "bob"), GpuServer("srv3", "carol"), GpuRules, GpuOwners);
  }

  lemma OutcomesOfThree(a: ServerFile, b: ServerFile, c: ServerFile, requirements: Table, userPackages: Index)
    requires requirements.Valid()
    ensures Outcomes([a, b, c], requirements, userPackages) == [
      FileViolations(a, requirements, userPackages),
      FileViolations(b, requirements, userPackages),
      FileViolations(c, requirements, userPackages)]
  {
  }

  /** A scenario server is reported unless its owner holds "pkg-gpu". */
  lemma GpuServerReport(code: string, owner: string)
    requires IsLowerCase(owner)
    ensures GpuRules.Valid()
    ensures FileViolations(GpuServer(code, owner), GpuRules, GpuOwners) ==
      if owner == "alice" then [] else [GpuReport(code, owner)]
  {
    var rule := Rule("gpu-cluster", "pkg-gpu");
    assert GpuRules.Items() == [rule];
    assert [rule][..0] == [];
    LowerOfLowerCase(owner);
  }

  /** The scenario given to the coordinator: 3 files processed, 2 servers found. */
  method GpuScan(completed: seq<ServerFile>) returns (unauthorizedServers: seq<Violation>, processedFiles: nat, foundServers: nat)
    requires multiset(completed) == multiset(GpuFiles())
    ensures processedFiles == 3 && foundServers == 2
    ensures multiset(unauthorizedServers) == multiset{GpuReport("srv2", "bob"), GpuReport("srv3", "carol")}
  {
    GpuScenario(completed);
    unauthorizedServers, processedFiles, foundServers := ScanServersParallel(GpuFiles(), completed, GpuRules, GpuOwners);
  }
}

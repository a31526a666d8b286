/**
  The per-server check of `process_json_file`: the fields read from one server file,
  the loop over the requirements in their iteration order, and the
  `(violations, error)` pair the worker hands back.
*/
module Evaluator {
  import opened Wrappers
  import opened Text
  import opened Requirements
  import opened Customers

  /** The `Data` object of a server file; a field the file leaves out is `None`. */
  datatype ServerData = ServerData(
    resources: Option<seq<string>>,
    ownerName: Option<string>,
    ownerProfile: Option<string>)

  /** A decoded server file: its `EndPoint` and its `Data` object, each possibly missing. */
  datatype Record = Record(endPoint: Option<string>, data: Option<ServerData>)

  /**
    Why a file could not be checked: a decoding failure (`JSONDecodeError`,
    `UnicodeDecodeError`) or any other exception, each with the exception's text.
  */
  datatype Failure = DecodeFailure(detail: string) | UnexpectedFailure(detail: string)

  /** What reading a server file gives: its fields, or the failure that stopped the read. */
  datatype Content = Decoded(record: Record) | Failed(failure: Failure)

  datatype ServerFile = ServerFile(name: string, content: Content)

  /** One report line: a server using a resource its owner has no package for. */
  datatype Violation = Violation(
    serverCode: string,
    ownerName: string,
    ownerProfile: string,
    resource: string,
    requiredPackage: string,
    fileName: string)

  /** The values the check reads from one server file once the defaults are applied. */
  datatype Subject = Subject(
    serverCode: string,
    ownerName: string,
    ownerProfile: string,
    resources: seq<string>,
    fileName: string)

  const Missing := "N/A"

  /** The reads of tool.py:54-57: a missing `Data` acts as `{}`, a missing list as `[]`, a missing name as "N/A". */
  function SubjectOf(fileName: string, record: Record): (subject: Subject)
    ensures subject.fileName == fileName
    ensures record.endPoint.Some? ==> subject.serverCode == record.endPoint.value
    ensures record.endPoint.None? ==> subject.serverCode == Missing
    ensures record.data.None? ==>
      subject.resources == [] && subject.ownerName == Missing && subject.ownerProfile == Missing
    ensures record.data.Some? ==>
      && subject.resources == record.data.value.resources.GetOr([])
      && subject.ownerName == record.data.value.ownerName.GetOr(Missing)
      && subject.ownerProfile == record.data.value.ownerProfile.GetOr(Missing)
  {
    var data := record.data.GetOr(ServerData(None, None, None));
    Subject(
      record.endPoint.GetOr(Missing),
      data.ownerName.GetOr(Missing),
      data.ownerProfile.GetOr(Missing),
      data.resources.GetOr([]),
      fileName)
  }

  /** `user_packages.get(owner_key, set())`. */
  function Owned(userPackages: Index, ownerKey: string): (owned: set<string>)
    ensures forall p :: p in owned <==> ownerKey in userPackages && p in userPackages[ownerKey]
  {
    if ownerKey in userPackages then userPackages[ownerKey] else {}
  }

  /** A rule is broken when the server uses its resource and the owner lacks its package. */
  predicate Breaks(subject: Subject, owned: set<string>, rule: Rule) {
    rule.resource in subject.resources && rule.package !in owned
  }

  function ViolationFor(subject: Subject, rule: Rule): Violation {
    Violation(subject.serverCode, subject.ownerName, subject.ownerProfile,
              rule.resource, rule.package, subject.fileName)
  }

  /** The violation is about this server: it repeats the server's code, owner and file. */
  predicate Describes(v: Violation, subject: Subject) {
    && v.serverCode == subject.serverCode
    && v.ownerName == subject.ownerName
    && v.ownerProfile == subject.ownerProfile
    && v.fileName == subject.fileName
  }

  /** The violations the rule loop of tool.py:59-70 appends, for the rules in this order. */
  function Violations(subject: Subject, owned: set<string>, rules: seq<Rule>): (vs: seq<Violation>)
    ensures |vs| <= |rules|
    ensures forall v :: v in vs ==>
      && Describes(v, subject)
      && Rule(v.resource, v.requiredPackage) in rules
      && Breaks(subject, owned, Rule(v.resource, v.requiredPackage))
  {
    if rules == [] then []
    else
      var init := Violations(subject, owned, rules[..|rules| - 1]);
      var rule := rules[|rules| - 1];
      assert forall r :: r in rules[..|rules| - 1] ==> r in rules;
      if Breaks(subject, owned, rule) then init + [ViolationFor(subject, rule)] else init
  }

  /** The violations one decoded server file yields against the two tables. */
  function RecordViolations(fileName: string, record: Record, requirements: Table, userPackages: Index): (vs: seq<Violation>)
    requires requirements.Valid()
    ensures |vs| <= |requirements.keys|
    ensures (forall k :: k in requirements.packageOf ==>
               requirements.packageOf[k] in Owned(userPackages, Lower(SubjectOf(fileName, record).ownerName)))
            ==> vs == []
  {
    var subject := SubjectOf(fileName, record);
    var vs := Violations(subject, Owned(userPackages, Lower(subject.ownerName)), requirements.Items());
    assert vs != [] ==> vs[0] in vs && Rule(vs[0].resource, vs[0].requiredPackage) in requirements.Items();
    vs
  }

  /** The message of tool.py:72-75 for a file that could not be checked. */
  function ErrorMessage(fileName: string, failure: Failure): (message: string)
    ensures message != []
    ensures exists k :: 0 <= k <= |message| && fileName <= message[k..]
    ensures |failure.detail| <= |message| && message[|message| - |failure.detail|..] == failure.detail
    ensures failure.DecodeFailure? <==> |message| >= 14 && message[..14] == "Error reading "
  {
    match failure
    case DecodeFailure(detail) =>
      var message := "Error reading " + fileName + ": " + detail;
      assert fileName <= message[14..];
      message
    case UnexpectedFailure(detail) =>
      var message := "Unexpected error with " + fileName + ": " + detail;
      assert fileName <= message[22..];
      assert message[0] == 'U';
      message
  }

  /** The violations a worker reports for a file: none when the file could not be checked. */
  function FileViolations(file: ServerFile, requirements: Table, userPackages: Index): (vs: seq<Violation>)
    requires requirements.Valid()
    ensures file.content.Failed? ==> vs == []
    ensures |vs| <= |requirements.keys|
  {
    match file.content
    case Decoded(record) => RecordViolations(file.name, record, requirements, userPackages)
    case Failed(_) => []
  }

  /** `process_json_file` once the file has been read and decoded (or has failed to be). */
  method ProcessJsonFile(file: ServerFile, requirements: Table, userPackages: Index)
    returns (unauthorized: seq<Violation>, error: Option<string>)
    requires requirements.Valid()
    ensures file.content.Failed? ==>
      unauthorized == [] && error == Some(ErrorMessage(file.name, file.content.failure))
    ensures file.content.Decoded? ==>
      error == None && unauthorized == RecordViolations(file.name, file.content.record, requirements, userPackages)
    ensures unauthorized == FileViolations(file, requirements, userPackages)
    ensures error.Some? ==> error.value != [] && unauthorized == []
  {
    var record: Record;
    match file.content {
      case Failed(failure) =>
        return [], Some(ErrorMessage(file.name, failure));
      case Decoded(r) =>
        record := r;
    }
    var subject := SubjectOf(file.name, record);
    unauthorized := CheckRequirements(subject, requirements, userPackages);
    error := None;
  }

  /**
    The loop of tool.py:58-70 for one server: the owner name is lower-cased once, and each
    requirement, in table order, whose resource the server uses while the owner lacks its
    package appends a violation.
  */
  method CheckRequirements(subject: Subject, requirements: Table, userPackages: Index)
    returns (unauthorized: seq<Violation>)
    requires requirements.Valid()
    ensures unauthorized == Violations(subject, Owned(userPackages, Lower(subject.ownerName)), requirements.Items())
  {
    var serverResources := subject.resources;
    var ownerKey := Lower(subject.ownerName);
    ghost var owned := Owned(userPackages, ownerKey);
    var items := requirements.Items();
    unauthorized := [];
    for i := 0 to |items|
      invariant unauthorized == Violations(subject, owned, items[..i])
    {
      ViolationsStep(subject, owned, items, i);
      var resource, requiredPackage := items[i].resource, items[i].package;
      if resource in serverResources {
        var ownerOwned := Owned(userPackages, ownerKey);
        if requiredPackage !in ownerOwned {
          unauthorized := unauthorized + [Violation(subject.serverCode, subject.ownerName,
            subject.ownerProfile, resource, requiredPackage, subject.fileName)];
        }
      }
    }
    assert items[..|items|] == items;
  }

  /** Taking one more rule appends its report when the server breaks it. */
  lemma ViolationsStep(subject: Subject, owned: set<string>, rules: seq<Rule>, i: nat)
    requires i < |rules|
    ensures Violations(subject, owned, rules[..i + 1]) ==
      Violations(subject, owned, rules[..i]) +
        (if Breaks(subject, owned, rules[i]) then [ViolationFor(subject, rules[i])] else [])
  {
    assert rules[..i + 1][..i] == rules[..i];
  }

  /**
    Every violation is the report of a broken rule: one for each rule of the list whose
    resource the server uses while its owner lacks the package, and no other.
  */
  lemma {:induction false} ViolationsExactly(subject: Subject, owned: set<string>, rules: seq<Rule>, rule: Rule)
    ensures ViolationFor(subject, rule) in Violations(subject, owned, rules) <==>
      rule in rules && Breaks(subject, owned, rule)
  {
    if rules != [] {
      var init := rules[..|rules| - 1];
      ViolationsExactly(subject, owned, init, rule);
      assert rules == init + [rules[|rules| - 1]];
    }
  }

  /** Every violation is `ViolationFor` the rule it names. */
  lemma ViolationsAreReports(subject: Subject, owned: set<string>, rules: seq<Rule>, v: Violation)
    requires v in Violations(subject, owned, rules)
    ensures v == ViolationFor(subject, Rule(v.resource, v.requiredPackage))
  {
  }

  /**
    tool.py:58-62 against the tables: a (resource, package) pair is reported for a server
    exactly when the requirements ask that package for that resource, the server lists
    the resource and the lower-cased owner does not own the package, an owner who is not
    in the index owning nothing.
  */
  lemma RecordViolationIff(fileName: string, record: Record, requirements: Table, userPackages: Index,
                           resource: string, package: string)
    requires requirements.Valid()
    ensures var subject := SubjectOf(fileName, record);
      ViolationFor(subject, Rule(resource, package)) in RecordViolations(fileName, record, requirements, userPackages) <==>
        && resource in requirements.packageOf
        && requirements.packageOf[resource] == package
        && resource in subject.resources
        && package !in Owned(userPackages, Lower(subject.ownerName))
  {
    var subject := SubjectOf(fileName, record);
    var rule := Rule(resource, package);
    var items := requirements.Items();
    ViolationsExactly(subject, Owned(userPackages, Lower(subject.ownerName)), items, rule);
    if resource in requirements.packageOf && requirements.packageOf[resource] == package {
      var i :| 0 <= i < |requirements.keys| && requirements.keys[i] == resource;
      assert items[i] == rule;
    }
  }

  /** An owner who is not in the index is reported for every required resource the server uses. */
  lemma UnknownOwnerOwnsNothing(fileName: string, record: Record, requirements: Table, userPackages: Index,
                                resource: string)
    requires requirements.Valid()
    requires Lower(SubjectOf(fileName, record).ownerName) !in userPackages
    requires resource in requirements.packageOf
    requires resource in SubjectOf(fileName, record).resources
    ensures ViolationFor(SubjectOf(fileName, record), Rule(resource, requirements.packageOf[resource]))
      in RecordViolations(fileName, record, requirements, userPackages)
  {
    RecordViolationIff(fileName, record, requirements, userPackages, resource, requirements.packageOf[resource]);
  }

  predicate DistinctResources(rules: seq<Rule>) {
    forall i, j :: 0 <= i < j < |rules| ==> rules[i].resource != rules[j].resource
  }

  /**
    The violations follow the order of the rules: when rule p comes before rule q, a
    violation naming p's resource comes before one naming q's.
  */
  lemma {:induction false} ViolationsInRuleOrder(subject: Subject, owned: set<string>, rules: seq<Rule>,
                                                 p: nat, q: nat, i: nat, j: nat)
    requires DistinctResources(rules)
    requires p < q < |rules|
    requires i < |Violations(subject, owned, rules)| && j < |Violations(subject, owned, rules)|
    requires Violations(subject, owned, rules)[i].resource == rules[p].resource
    requires Violations(subject, owned, rules)[j].resource == rules[q].resource
    ensures i < j
  {
    var n := |rules| - 1;
    var init := rules[..n];
    var before := Violations(subject, owned, init);
    var vs := Violations(subject, owned, rules);
    assert vs[..|before|] == before;
    if q < n {
      ViolationsInRuleOrder(subject, owned, init, p, q, i, j);
    }
  }

  /** With one rule per resource, a server is reported at most once per rule. */
  lemma AtMostOncePerRule(subject: Subject, owned: set<string>, rules: seq<Rule>, i: nat, j: nat)
    requires DistinctResources(rules)
    requires i < j < |Violations(subject, owned, rules)|
    ensures Violations(subject, owned, rules)[i].resource != Violations(subject, owned, rules)[j].resource
  {
    var vs := Violations(subject, owned, rules);
    if vs[i].resource == vs[j].resource {
      assert vs[i] in vs;
      var p :| 0 <= p < |rules| && rules[p] == Rule(vs[i].resource, vs[i].requiredPackage);
      assert vs[j] in vs;
      var q :| 0 <= q < |rules| && rules[q] == Rule(vs[j].resource, vs[j].requiredPackage);
      assert p == q;
      assert vs[i].requiredPackage == vs[j].requiredPackage;
      assert vs[i] == vs[j];
      Unrepeated(subject, owned, rules, i, j);
    }
  }

  /** No violation is listed twice. */
  lemma {:induction false} Unrepeated(subject: Subject, owned: set<string>, rules: seq<Rule>, i: nat, j: nat)
    requires DistinctResources(rules)
    requires i < j < |Violations(subject, owned, rules)|
    ensures Violations(subject, owned, rules)[i] != Violations(subject, owned, rules)[j]
  {
    var n := |rules| - 1;
    var init := rules[..n];
    var before := Violations(subject, owned, init);
    var vs := Violations(subject, owned, rules);
    assert vs[..|before|] == before;
    if j < |before| {
      Unrepeated(subject, owned, init, i, j);
    } else {
      assert before[i] in before;
      var k :| 0 <= k < n && init[k] == Rule(before[i].resource, before[i].requiredPackage);
      assert vs[j].resource == rules[n].resource;
      assert rules[k].resource != rules[n].resource;
    }
  }

  /** A server is reported at most once for each requirement of the table. */
  lemma RecordViolationsOncePerRequirement(fileName: string, record: Record, requirements: Table, userPackages: Index,
                                           i: nat, j: nat)
    requires requirements.Valid()
    requires i < j < |RecordViolations(fileName, record, requirements, userPackages)|
    ensures RecordViolations(fileName, record, requirements, userPackages)[i].resource !=
            RecordViolations(fileName, record, requirements, userPackages)[j].resource
  {
    var subject := SubjectOf(fileName, record);
    TableRulesAreDistinct(requirements);
    AtMostOncePerRule(subject, Owned(userPackages, Lower(subject.ownerName)), requirements.Items(), i, j);
  }

  /** The table's rules have distinct resources, so each requirement is reported at most once. */
  lemma TableRulesAreDistinct(requirements: Table)
    requires requirements.Valid()
    ensures DistinctResources(requirements.Items())
  {
  }

  /** A file without a `Data` object uses no resources and so breaks no rule. */
  lemma NoDataNoViolations(fileName: string, record: Record, requirements: Table, userPackages: Index)
    requires requirements.Valid()
    requires record.data.None?
    ensures RecordViolations(fileName, record, requirements, userPackages) == []
    ensures SubjectOf(fileName, record).ownerName == Missing
  {
    var subject := SubjectOf(fileName, record);
    NoResourcesNoViolations(subject, Owned(userPackages, Lower(subject.ownerName)), requirements.Items());
  }

  /** A server that lists no resources breaks no rule. */
  lemma {:induction false} NoResourcesNoViolations(subject: Subject, owned: set<string>, rules: seq<Rule>)
    requires subject.resources == []
    ensures Violations(subject, owned, rules) == []
  {
    if rules != [] {
      NoResourcesNoViolations(subject, owned, rules[..|rules| - 1]);
    }
  }

  /** With no requirements loaded, no server is reported. */
  lemma EmptyTableNoViolations(fileName: string, record: Record, userPackages: Index)
    ensures EmptyTable.Valid()
    ensures RecordViolations(fileName, record, EmptyTable, userPackages) == []
  {
  }

  /** Only the lower-cased owner name is looked up, so owners differing in case are treated alike. */
  lemma OwnerCaseIgnored(fileName: string, a: Record, b: Record, requirements: Table, userPackages: Index)
    requires requirements.Valid()
    requires SubjectOf(fileName, a).resources == SubjectOf(fileName, b).resources
    requires EqualIgnoringCase(SubjectOf(fileName, a).ownerName, SubjectOf(fileName, b).ownerName)
    ensures |RecordViolations(fileName, a, requirements, userPackages)| ==
            |RecordViolations(fileName, b, requirements, userPackages)|
  {
    LowerIdentifiesCaseVariants(SubjectOf(fileName, a).ownerName, SubjectOf(fileName, b).ownerName);
    SameBreaksSameCount(SubjectOf(fileName, a), SubjectOf(fileName, b),
      Owned(userPackages, Lower(SubjectOf(fileName, a).ownerName)), requirements.Items());
  }

  lemma {:induction false} SameBreaksSameCount(s: Subject, t: Subject, owned: set<string>, rules: seq<Rule>)
    requires s.resources == t.resources
    ensures |Violations(s, owned, rules)| == |Violations(t, owned, rules)|
  {
    if rules != [] {
      SameBreaksSameCount(s, t, owned, rules[..|rules| - 1]);
    }
  }

  /**
    The owner name is lower-cased but not stripped (tool.py:58), while the index keys
    are stripped usernames (tool.py:34): an owner name that starts or ends with
    whitespace is never found, so such a server counts as owning nothing.
  */
  lemma PaddedOwnerNotFound(rows: seq<Row>, ownerName: string)
    requires ownerName != [] && (IsSpace(ownerName[0]) || IsSpace(ownerName[|ownerName| - 1]))
    ensures Lower(ownerName) !in IndexOf(rows)
  {
    var key := Lower(ownerName);
    assert IsSpace(key[0]) || IsSpace(key[|key| - 1]);
    forall i | 0 <= i < |rows| ensures UserKey(rows[i]) != Some(key) {
      if UserKey(rows[i]).Some? {
        KeyHasNoOuterSpace(rows[i]);
      }
    }
    IndexKeys(rows, key);
  }

  /** A key is a stripped username lower-cased, so it neither starts nor ends with whitespace. */
  lemma KeyHasNoOuterSpace(row: Row)
    requires UserKey(row).Some?
    ensures var key := UserKey(row).value; !IsSpace(key[0]) && !IsSpace(key[|key| - 1])
  {
    var username := Strip(Cell(row, "Username"));
    assert UserKey(row).value == Lower(username);
  }
}

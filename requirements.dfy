/**
  The entitlement table: `load_requirements` (tool.py:11-23) with the file already read
  into its lines. Each line `resource:package` becomes one rule; the table is a Python
  dict, so it remembers the order in which its keys were first inserted and an
  overwrite keeps a key where it was.
*/
module Requirements {
  import opened Wrappers
  import opened Text

  /** One entitlement rule: using `resource` requires owning `package`. */
  datatype Rule = Rule(resource: string, package: string)

  /**
    The requirements dict: `keys` in insertion order (the order `dict.items()` yields),
    `packageOf` the mapping itself.
  */
  datatype Table = Table(keys: seq<string>, packageOf: map<string, string>) {

    ghost predicate Valid() {
      && (forall i, j :: 0 <= i < j < |keys| ==> keys[i] != keys[j])
      && (forall k :: k in packageOf <==> k in keys)
    }

    /** `table.items()`, in iteration order. */
    function Items(): (items: seq<Rule>)
      requires Valid()
      ensures |items| == |keys|
      ensures forall i :: 0 <= i < |items| ==>
        items[i].resource == keys[i] && items[i].resource in packageOf && items[i].package == packageOf[keys[i]]
    {
      seq(|keys|, i requires 0 <= i < |keys| => Rule(keys[i], packageOf[keys[i]]))
    }
  }

  const EmptyTable := Table([], map[])

  /**
    `table[rule.resource] = rule.package`: the mapping takes the new value, a new key
    goes to the end of the iteration order and an existing key keeps its place.
  */
  function Put(table: Table, rule: Rule): (r: Table)
    requires table.Valid()
    ensures r.Valid()
    ensures r.packageOf == table.packageOf[rule.resource := rule.package]
    ensures |table.keys| <= |r.keys| <= |table.keys| + 1
    ensures r.keys[..|table.keys|] == table.keys
  {
    if rule.resource in table.packageOf then
      Table(table.keys, table.packageOf[rule.resource := rule.package])
    else
      Table(table.keys + [rule.resource], table.packageOf[rule.resource := rule.package])
  }

  /** Position of the first ':' in `s`, or `|s|` when it has none. */
  function FirstColon(s: string): (i: nat)
    ensures i <= |s|
    ensures ':' !in s[..i]
    ensures i < |s| ==> s[i] == ':'
    ensures i < |s| <==> ':' in s
  {
    if s == [] || s[0] == ':' then 0
    else
      var i := 1 + FirstColon(s[1..]);
      assert s[..i] == [s[0]] + s[1..][..i - 1];
      i
  }

  lemma {:induction false} FirstColonOfSplit(a: string, b: string)
    requires ':' !in a
    ensures FirstColon(a + [':'] + b) == |a|
  {
    if a != [] {
      assert (a + [':'] + b)[1..] == a[1..] + [':'] + b;
      FirstColonOfSplit(a[1..], b);
    }
  }

  /**
    One line of the requirements file (tool.py:18-22): stripped; a blank line or one
    without ':' yields nothing; otherwise `line.split(":", 1)` with both halves stripped.
  */
  function ParseLine(line: string): (r: Option<Rule>)
    ensures r.None? <==> Strip(line) == [] || ':' !in Strip(line)
    ensures r.Some? ==> ':' !in r.value.resource
  {
    var t := Strip(line);
    if t == [] || ':' !in t then None
    else
      var i := FirstColon(t);
      StripKeepsChars(t[..i]);
      Some(Rule(Strip(t[..i]), Strip(t[i + 1..])))
  }

  /**
    The split is at the FIRST colon: whatever follows it, further colons included,
    is the package, and both parts are stripped.
  */
  lemma ParseLineSplitsAtFirstColon(line: string, before: string, after: string)
    requires Strip(line) == before + [':'] + after && ':' !in before
    ensures ParseLine(line) == Some(Rule(Strip(before), Strip(after)))
  {
    var t := Strip(line);
    FirstColonOfSplit(before, after);
    assert t[..|before|] == before && t[|before| + 1..] == after;
  }

  /** A rule written back as `resource:package`. */
  function Format(rule: Rule): string {
    rule.resource + [':'] + rule.package
  }

  /**
    Parsing undoes formatting for every rule the parser can produce: a colon-free,
    already stripped resource and a stripped package.
  */
  lemma ParseFormatRoundTrip(rule: Rule)
    requires ':' !in rule.resource
    requires Strip(rule.resource) == rule.resource && Strip(rule.package) == rule.package
    ensures ParseLine(Format(rule)) == Some(rule)
  {
    var line := Format(rule);
    assert Strip(line) == line;
    ParseLineSplitsAtFirstColon(line, rule.resource, rule.package);
  }

  /** Conversely, every rule the parser yields has that shape. */
  lemma ParsedRulesAreNormal(line: string)
    requires ParseLine(line).Some?
    ensures Strip(ParseLine(line).value.resource) == ParseLine(line).value.resource
    ensures Strip(ParseLine(line).value.package) == ParseLine(line).value.package
  {
    var t := Strip(line);
    var i := FirstColon(t);
    StripIdempotent(t[..i]);
    StripIdempotent(t[i + 1..]);
  }

  /** `lines` parsed one by one, blank and colon-less lines as `None`. */
  function Parsed(lines: seq<string>): (parsed: seq<Option<Rule>>)
    ensures |parsed| == |lines|
    ensures forall i :: 0 <= i < |lines| ==> parsed[i] == ParseLine(lines[i])
  {
    seq(|lines|, i requires 0 <= i < |lines| => ParseLine(lines[i]))
  }

  /** Does this parsed line define a rule for resource `k`? */
  predicate Defines(parsed: Option<Rule>, k: string) {
    parsed.Some? && parsed.value.resource == k
  }

  /** The dict fold of tool.py:17-22 over already-parsed lines. */
  function TableOf(parsed: seq<Option<Rule>>): (table: Table)
    ensures table.Valid()
  {
    if parsed == [] then EmptyTable
    else
      var prev := TableOf(parsed[..|parsed| - 1]);
      match parsed[|parsed| - 1]
      case None => prev
      case Some(rule) => Put(prev, rule)
  }

  /** The table the loop of tool.py:17-22 has built after reading `lines`. */
  function RequirementsOf(lines: seq<string>): (table: Table)
    ensures table.Valid()
    ensures |table.keys| <= |lines|
  {
    TableSize(Parsed(lines));
    TableOf(Parsed(lines))
  }

  /** Each line adds at most one key. */
  lemma {:induction false} TableSize(parsed: seq<Option<Rule>>)
    ensures |TableOf(parsed).keys| <= |parsed|
  {
    if parsed != [] {
      TableSize(parsed[..|parsed| - 1]);
    }
  }

  /** `load_requirements` once the file's lines are in hand. */
  method LoadRequirements(lines: seq<string>) returns (requirements: Table)
    ensures requirements.Valid()
    ensures requirements == RequirementsOf(lines)
  {
    requirements := EmptyTable;
    for n := 0 to |lines|
      invariant requirements == TableOf(Parsed(lines[..n]))
    {
      var parsed := ParseLine(lines[n]);
      if parsed.Some? {
        requirements := Put(requirements, parsed.value);
      }
      assert Parsed(lines[..n + 1])[..n] == Parsed(lines[..n]);
    }
    assert lines[..|lines|] == lines;
  }

  /** With no lines there are no rules (a missing file reads as no lines). */
  lemma NoLinesNoRules()
    ensures RequirementsOf([]).keys == [] && RequirementsOf([]).packageOf == map[]
  {
  }

  lemma {:induction false} TableKeysFromRules(parsed: seq<Option<Rule>>, k: string)
    ensures k in TableOf(parsed).packageOf <==> exists i :: 0 <= i < |parsed| && Defines(parsed[i], k)
  {
    if parsed != [] {
      var init := parsed[..|parsed| - 1];
      TableKeysFromRules(init, k);
      if exists i :: 0 <= i < |init| && Defines(init[i], k) {
        var i :| 0 <= i < |init| && Defines(init[i], k);
        assert Defines(parsed[i], k);
      }
      if exists i :: 0 <= i < |parsed| && Defines(parsed[i], k) {
        var i :| 0 <= i < |parsed| && Defines(parsed[i], k);
        if i < |init| {
          assert Defines(init[i], k);
        }
      }
    }
  }

  /** A resource is a key of the table exactly when some line defines it. */
  lemma KeysComeFromLines(lines: seq<string>, k: string)
    ensures k in RequirementsOf(lines).packageOf <==> exists i :: 0 <= i < |lines| && Defines(ParseLine(lines[i]), k)
  {
    var parsed := Parsed(lines);
    TableKeysFromRules(parsed, k);
    if exists i :: 0 <= i < |parsed| && Defines(parsed[i], k) {
      var i :| 0 <= i < |parsed| && Defines(parsed[i], k);
      assert Defines(ParseLine(lines[i]), k);
    }
    if exists i :: 0 <= i < |lines| && Defines(ParseLine(lines[i]), k) {
      var i :| 0 <= i < |lines| && Defines(ParseLine(lines[i]), k);
      assert Defines(parsed[i], k);
    }
  }

  /** No entry after position `i` defines `k`. */
  predicate NoLaterDefinition(parsed: seq<Option<Rule>>, i: nat, k: string) {
    forall j :: i < j < |parsed| ==> !Defines(parsed[j], k)
  }

  /** Some entry defines `k` as `v` and none after it redefines `k`. */
  predicate LastDefinedAs(parsed: seq<Option<Rule>>, k: string, v: string) {
    exists i :: 0 <= i < |parsed| && parsed[i] == Some(Rule(k, v)) && NoLaterDefinition(parsed, i, k)
  }

  /** Peeling the last entry off the declarative "last definition" reading. */
  lemma LastDefinedAsStep(parsed: seq<Option<Rule>>, k: string, v: string)
    requires parsed != []
    ensures LastDefinedAs(parsed, k, v) ==
      if Defines(parsed[|parsed| - 1], k) then parsed[|parsed| - 1] == Some(Rule(k, v))
      else LastDefinedAs(parsed[..|parsed| - 1], k, v)
  {
    var n := |parsed| - 1;
    var init := parsed[..n];
    if Defines(parsed[n], k) {
      if parsed[n] == Some(Rule(k, v)) {
        assert NoLaterDefinition(parsed, n, k);
      } else {
        forall i | 0 <= i < n && parsed[i] == Some(Rule(k, v))
          ensures !NoLaterDefinition(parsed, i, k)
        {
          assert Defines(parsed[n], k);
        }
      }
    } else {
      if LastDefinedAs(init, k, v) {
        var i :| 0 <= i < |init| && init[i] == Some(Rule(k, v)) && NoLaterDefinition(init, i, k);
        assert NoLaterDefinition(parsed, i, k) by {
          forall j | i < j < |parsed| ensures !Defines(parsed[j], k) {
            if j < n { assert parsed[j] == init[j]; }
          }
        }
        assert parsed[i] == Some(Rule(k, v));
      }
      if LastDefinedAs(parsed, k, v) {
        var i :| 0 <= i < |parsed| && parsed[i] == Some(Rule(k, v)) && NoLaterDefinition(parsed, i, k);
        assert i < n;
        assert NoLaterDefinition(init, i, k) by {
          forall j | i < j < |init| ensures !Defines(init[j], k) {
            assert init[j] == parsed[j];
          }
        }
        assert init[i] == Some(Rule(k, v));
      }
    }
  }

  lemma {:induction false} TableLastWins(parsed: seq<Option<Rule>>, k: string, v: string)
    ensures (k in TableOf(parsed).packageOf && TableOf(parsed).packageOf[k] == v) <==> LastDefinedAs(parsed, k, v)
  {
    if parsed != [] {
      TableLastWins(parsed[..|parsed| - 1], k, v);
      LastDefinedAsStep(parsed, k, v);
    }
  }

  /**
    Last write wins: the table maps `k` to `v` exactly when some line defines the rule
    `k:v` and no later line defines `k` again.
  */
  lemma LastDefinitionWins(lines: seq<string>, k: string, v: string)
    ensures (k in RequirementsOf(lines).packageOf && RequirementsOf(lines).packageOf[k] == v) <==>
      exists i :: 0 <= i < |lines| && ParseLine(lines[i]) == Some(Rule(k, v)) &&
        forall j :: i < j < |lines| ==> !Defines(ParseLine(lines[j]), k)
  {
    TableLastWins(Parsed(lines), k, v);
    if LastDefinedAs(Parsed(lines), k, v) {
      LastDefinitionFromTable(lines, k, v);
    }
    if exists i :: 0 <= i < |lines| && ParseLine(lines[i]) == Some(Rule(k, v)) &&
        forall j :: i < j < |lines| ==> !Defines(ParseLine(lines[j]), k) {
      var i :| 0 <= i < |lines| && ParseLine(lines[i]) == Some(Rule(k, v)) &&
        forall j :: i < j < |lines| ==> !Defines(ParseLine(lines[j]), k);
      LastDefinitionToTable(lines, k, v, i);
    }
  }

  lemma LastDefinitionFromTable(lines: seq<string>, k: string, v: string)
    requires LastDefinedAs(Parsed(lines), k, v)
    ensures
      exists i :: 0 <= i < |lines| && ParseLine(lines[i]) == Some(Rule(k, v)) &&
        forall j :: i < j < |lines| ==> !Defines(ParseLine(lines[j]), k)
  {
    var parsed := Parsed(lines);
    var i :| 0 <= i < |parsed| && parsed[i] == Some(Rule(k, v)) && NoLaterDefinition(parsed, i, k);
    forall j | i < j < |lines| ensures !Defines(ParseLine(lines[j]), k) {
      assert parsed[j] == ParseLine(lines[j]);
    }
  }

  lemma LastDefinitionToTable(lines: seq<string>, k: string, v: string, i: nat)
    requires i < |lines| && ParseLine(lines[i]) == Some(Rule(k, v))
    requires forall j :: i < j < |lines| ==> !Defines(ParseLine(lines[j]), k)
    ensures LastDefinedAs(Parsed(lines), k, v)
  {
    var parsed := Parsed(lines);
    assert NoLaterDefinition(parsed, i, k);
    assert parsed[i] == Some(Rule(k, v));
  }

  lemma {:induction false} TableKeysInFirstDefinitionOrder(parsed: seq<Option<Rule>>, p: nat, q: nat)
    requires p < q < |TableOf(parsed).keys|
    ensures
      exists i :: 0 <= i < |parsed| && Defines(parsed[i], TableOf(parsed).keys[p]) &&
        forall j :: 0 <= j <= i ==> !Defines(parsed[j], TableOf(parsed).keys[q])
  {
    var n := |parsed| - 1;
    var init := parsed[..n];
    var prev := TableOf(init);
    var t := TableOf(parsed);
    var kp, kq := t.keys[p], t.keys[q];
    if q < |prev.keys| {
      assert prev.keys[p] == kp && prev.keys[q] == kq;
      TableKeysInFirstDefinitionOrder(init, p, q);
      var i :| 0 <= i < |init| && Defines(init[i], kp) &&
        forall j :: 0 <= j <= i ==> !Defines(init[j], kq);
      assert Defines(parsed[i], kp);
      assert forall j :: 0 <= j <= i ==> !Defines(parsed[j], kq) by {
        forall j | 0 <= j <= i ensures !Defines(parsed[j], kq) {
          assert parsed[j] == init[j];
        }
      }
    } else {
      // kq was appended by the last line, so no earlier line defines it.
      assert kq !in prev.keys;
      assert kp in prev.keys;
      TableKeysFromRules(init, kp);
      TableKeysFromRules(init, kq);
      var i :| 0 <= i < |init| && Defines(init[i], kp);
      assert Defines(parsed[i], kp);
      assert forall j :: 0 <= j <= i ==> !Defines(parsed[j], kq) by {
        forall j | 0 <= j <= i ensures !Defines(parsed[j], kq) {
          assert parsed[j] == init[j];
        }
      }
    }
  }

  /**
    Iteration order is first-insertion order: for two keys in table order, the first
    is defined by some line that comes before every line defining the second.
  */
  lemma KeysInFirstDefinitionOrder(lines: seq<string>, p: nat, q: nat)
    requires p < q < |RequirementsOf(lines).keys|
    ensures
      exists i :: 0 <= i < |lines| && Defines(ParseLine(lines[i]), RequirementsOf(lines).keys[p]) &&
        forall j :: 0 <= j <= i ==> !Defines(ParseLine(lines[j]), RequirementsOf(lines).keys[q])
  {
    TableKeysInFirstDefinitionOrder(Parsed(lines), p, q);
  }
}

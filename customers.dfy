/**
  The customer package index: `load_customer_packages` (tool.py:25-46) with the CSV
  already read into rows. Each row's Username is stripped and lower-cased into the
  lookup key; its Packages cell is normalised into a set of package names; rows for
  the same key pool their packages.
*/
module Customers {
  import opened Wrappers
  import opened Text

  /** One CSV row as `csv.DictReader` yields it: column name to cell text. */
  type Row = map<string, string>

  /** The lookup table: lower-case username to the packages that user owns. */
  type Index = map<string, set<string>>

  /** `row.get(column, "")`. */
  function Cell(row: Row, column: string): (text: string)
    ensures column in row ==> text == row[column]
    ensures column !in row ==> text == ""
  {
    if column in row then row[column] else ""
  }

  /**
    The key a row is filed under (tool.py:34, 36-38): its stripped Username,
    lower-cased, or nothing when that is blank.
  */
  function UserKey(row: Row): (key: Option<string>)
    ensures key.None? <==> Strip(Cell(row, "Username")) == []
    ensures key.Some? ==> key.value != [] && IsLowerCase(key.value)
    ensures key.Some? ==> EqualIgnoringCase(key.value, Strip(Cell(row, "Username")))
  {
    var username := Strip(Cell(row, "Username"));
    if username == [] then None else Some(Lower(username))
  }

  /** Where the Packages text is split: a comma or whitespace (the class `[,\s]`). */
  predicate IsSeparator(c: char) {
    c == ',' || IsSpace(c)
  }

  predicate NoSeparator(p: string) {
    forall i :: 0 <= i < |p| ==> !IsSeparator(p[i])
  }

  /** What a normalised package name may contain: no separator, bracket, quote or ';'. */
  predicate IsPackageChar(c: char) {
    !IsSeparator(c) && c != '[' && c != ']' && c != '"' && c != ';'
  }

  /** One character through the `replace` chain of tool.py:39-40. */
  function CleanChar(c: char): (r: string)
    ensures |r| <= 1
    ensures r == [] <==> c == '[' || c == ']' || c == '"'
    ensures r != [] ==> r[0] == (if c == ';' then ',' else c)
  {
    if c == '[' || c == ']' || c == '"' then []
    else if c == ';' then [',']
    else [c]
  }

  /**
    tool.py:39-40: remove every '[', ']' and '"', then turn every ';' into ','.
    Each replacement is of one character by at most one other that no later
    replacement touches, so the chain acts character by character.
  */
  function Clean(s: string): (r: string)
    ensures forall i :: 0 <= i < |r| ==> r[i] != '[' && r[i] != ']' && r[i] != '"' && r[i] != ';'
  {
    if s == [] then [] else CleanChar(s[0]) + Clean(s[1..])
  }

  lemma {:induction false} CleanAppend(a: string, b: string)
    ensures Clean(a + b) == Clean(a) + Clean(b)
  {
    if a == [] {
      assert a + b == b;
    } else {
      assert (a + b)[0] == a[0] && (a + b)[1..] == a[1..] + b;
      CleanAppend(a[1..], b);
      calc {
        Clean(a + b);
        CleanChar(a[0]) + Clean(a[1..] + b);
        CleanChar(a[0]) + (Clean(a[1..]) + Clean(b));
        (CleanChar(a[0]) + Clean(a[1..])) + Clean(b);
      }
    }
  }

  /** Whitespace passes through the replace chain untouched. */
  lemma {:induction false} CleanAllSpace(w: string)
    requires AllSpace(w)
    ensures Clean(w) == w
  {
    if w != [] {
      CleanAllSpace(w[1..]);
    }
  }

  /**
    `s` cut at every single separator. `re.split(r"[,\s]+", s)` cuts at runs of
    separators instead; the two differ only in empty pieces, which tool.py:42 drops.
  */
  function Pieces(s: string): (r: seq<string>)
    ensures |r| >= 1
    ensures forall i :: 0 <= i < |r| ==> NoSeparator(r[i])
  {
    if s == [] then [[]]
    else
      var rest := Pieces(s[1..]);
      if IsSeparator(s[0]) then [[]] + rest
      else [[s[0]] + rest[0]] + rest[1..]
  }

  /** Every character of a piece is a character of the text it was cut from. */
  lemma {:induction false} PiecesKeepChars(s: string)
    ensures forall i, j :: 0 <= i < |Pieces(s)| && 0 <= j < |Pieces(s)[i]| ==> Pieces(s)[i][j] in s
  {
    if s != [] {
      PiecesKeepChars(s[1..]);
    }
  }

  /** The non-empty pieces of `s`. */
  function Tokens(s: string): set<string> {
    set p | p in Pieces(s) && p != []
  }

  /**
    tool.py:39-42 on an already stripped Packages cell: clean, split on commas and
    whitespace, and keep the non-empty pieces. The `p.strip()` of tool.py:42 is left
    out of the comprehension because a piece holds no whitespace to strip
    (PiecesAreStripped).
  */
  function NormalizePackages(field: string): (owned: set<string>)
    ensures "" !in owned
    ensures forall p :: p in owned ==> forall i :: 0 <= i < |p| ==> IsPackageChar(p[i])
  {
    PiecesKeepChars(Clean(field));
    Tokens(Clean(field))
  }

  lemma PiecesAreStripped(s: string)
    ensures forall p :: p in Pieces(s) ==> Strip(p) == p
  {
    forall p | p in Pieces(s) ensures Strip(p) == p {
      StripNoSpace(p);
    }
  }

  /** The packages a row contributes: its Packages cell stripped (tool.py:35) and normalised. */
  function PackagesOf(row: Row): (owned: set<string>)
    ensures owned == NormalizePackages(Cell(row, "Packages"))
    ensures "" !in owned
  {
    PackagesIgnoreOuterSpace(Cell(row, "Packages"));
    NormalizePackages(Strip(Cell(row, "Packages")))
  }

  /** A separator cuts `s` into the pieces on either side of it. */
  lemma {:induction false} PiecesOfJoin(a: string, c: char, b: string)
    requires IsSeparator(c)
    ensures Pieces(a + [c] + b) == Pieces(a) + Pieces(b)
  {
    if a != [] {
      assert (a + [c] + b)[1..] == a[1..] + [c] + b;
      PiecesOfJoin(a[1..], c, b);
    }
  }

  lemma TokensOfJoin(a: string, c: char, b: string)
    requires IsSeparator(c)
    ensures Tokens(a + [c] + b) == Tokens(a) + Tokens(b)
  {
    PiecesOfJoin(a, c, b);
  }

  lemma TokensOfEmpty()
    ensures Tokens([]) == {}
  {
    assert Pieces([]) == [[]];
  }

  /** Whitespace in front of the text adds no token. */
  lemma {:induction false} TokensIgnoreLeadingSpace(w: string, s: string)
    requires AllSpace(w)
    ensures Tokens(w + s) == Tokens(s)
  {
    if w == [] {
      assert w + s == s;
    } else {
      TokensIgnoreLeadingSpace(w[1..], s);
      assert w + s == [] + [w[0]] + (w[1..] + s);
      TokensOfJoin([], w[0], w[1..] + s);
      TokensOfEmpty();
    }
  }

  /** Whitespace after the text adds no token. */
  lemma TokensIgnoreTrailingSpace(s: string, w: string)
    requires AllSpace(w)
    ensures Tokens(s + w) == Tokens(s)
  {
    if w == [] {
      assert s + w == s;
    } else {
      assert s + w == s + [w[0]] + w[1..];
      TokensOfJoin(s, w[0], w[1..]);
      TokensIgnoreLeadingSpace(w[1..], []);
      assert w[1..] + [] == w[1..];
      TokensOfEmpty();
    }
  }

  /** Stripping the cell first (tool.py:35) changes nothing about its packages. */
  lemma PackagesIgnoreOuterSpace(field: string)
    ensures NormalizePackages(Strip(field)) == NormalizePackages(field)
  {
    var i := StripSlice(field);
    var r := Strip(field);
    var before, after := field[..i], field[i + |r|..];
    assert field == before + (r + after);
    CleanAppend(before, r + after);
    CleanAppend(r, after);
    CleanAllSpace(before);
    CleanAllSpace(after);
    calc {
      NormalizePackages(field);
      Tokens(Clean(before + (r + after)));
      Tokens(before + (Clean(r) + after));
      { TokensIgnoreLeadingSpace(before, Clean(r) + after); }
      Tokens(Clean(r) + after);
      { TokensIgnoreTrailingSpace(Clean(r), after); }
      Tokens(Clean(r));
    }
  }

  /**
    Delimiters are interchangeable and each splits the list: a ',' a ';' or any
    whitespace between two lists yields the union of their packages.
  */
  lemma NormalizeUnion(a: string, c: char, b: string)
    requires c == ',' || c == ';' || IsSpace(c)
    ensures NormalizePackages(a + [c] + b) == NormalizePackages(a) + NormalizePackages(b)
  {
    CleanAppend(a + [c], b);
    CleanAppend(a, [c]);
    assert Clean([c]) == [if c == ';' then ',' else c];
    TokensOfJoin(Clean(a), if c == ';' then ',' else c, Clean(b));
  }

  /** Brackets and quotes wrapped around the list are ignored. */
  lemma NormalizeIgnoresWrapping(open: char, s: string, close: char)
    requires open == '[' || open == '"'
    requires close == ']' || close == '"'
    ensures NormalizePackages([open] + s + [close]) == NormalizePackages(s)
  {
    CleanAppend([open] + s, [close]);
    CleanAppend([open], s);
    assert Clean([open]) == [] && Clean([close]) == [];
    assert Clean([open] + s + [close]) == Clean(s);
  }

  /** A single well-formed package name normalises to just itself. */
  lemma NormalizeSingle(p: string)
    requires p != [] && forall i :: 0 <= i < |p| ==> IsPackageChar(p[i])
    ensures NormalizePackages(p) == {p}
  {
    assert Clean(p) == p by {
      CleanPackageChars(p);
    }
    assert Pieces(p) == [p] by {
      PiecesNoSeparator(p);
    }
  }

  lemma {:induction false} CleanPackageChars(p: string)
    requires forall i :: 0 <= i < |p| ==> IsPackageChar(p[i])
    ensures Clean(p) == p
  {
    if p != [] {
      CleanPackageChars(p[1..]);
      assert p == [p[0]] + p[1..];
    }
  }

  lemma {:induction false} PiecesNoSeparator(p: string)
    requires NoSeparator(p)
    ensures Pieces(p) == [p]
  {
    if p != [] {
      PiecesNoSeparator(p[1..]);
      assert p == [p[0]] + p[1..];
    }
  }

  /** What one row brings to the index: the key it is filed under, if any, and its packages. */
  datatype Entry = Entry(key: Option<string>, packages: set<string>)

  function EntryOf(row: Row): Entry {
    Entry(UserKey(row), PackagesOf(row))
  }

  function Entries(rows: seq<Row>): (entries: seq<Entry>)
    ensures |entries| == |rows|
    ensures forall i :: 0 <= i < |rows| ==> entries[i] == EntryOf(rows[i])
  {
    seq(|rows|, i requires 0 <= i < |rows| => EntryOf(rows[i]))
  }

  /** Adding one row's packages to its key's set, creating the set first if needed (tool.py:43-45). */
  function AddEntry(index: Index, entry: Entry): (r: Index)
    ensures forall k :: k in index ==> k in r && index[k] <= r[k]
    ensures forall k :: k in r ==> k in index || entry.key == Some(k)
    ensures forall k :: k in index && entry.key != Some(k) ==> r[k] == index[k]
    ensures entry.key.Some? ==> entry.key.value in r && entry.packages <= r[entry.key.value]
  {
    match entry.key
    case None => index
    case Some(k) => index[k := (if k in index then index[k] else {}) + entry.packages]
  }

  /** The fold of tool.py:33-45 over the rows' entries. */
  function Pool(entries: seq<Entry>): (index: Index)
    ensures forall i :: 0 <= i < |entries| && entries[i].key.Some? ==>
      entries[i].key.value in index && entries[i].packages <= index[entries[i].key.value]
  {
    if entries == [] then map[]
    else AddEntry(Pool(entries[..|entries| - 1]), entries[|entries| - 1])
  }

  /** The index the loop of tool.py:33-45 has built after reading `rows`. */
  function IndexOf(rows: seq<Row>): (index: Index)
    ensures forall k :: k in index ==> k != [] && IsLowerCase(k)
  {
    IndexKeysAreLowerCase(rows);
    Pool(Entries(rows))
  }

  /** `load_customer_packages` once the CSV rows are in hand. */
  method LoadCustomerPackages(rows: seq<Row>) returns (userPackages: Index)
    ensures userPackages == IndexOf(rows)
    ensures forall k :: k in userPackages ==> k != [] && IsLowerCase(k)
  {
    userPackages := map[];
    for n := 0 to |rows|
      invariant userPackages == Pool(Entries(rows[..n]))
    {
      PoolStep(rows, n);
      ghost var before := userPackages;
      var row := rows[n];
      var username := Strip(Cell(row, "Username"));
      var packagesField := Strip(Cell(row, "Packages"));
      if username == [] {
        assert AddEntry(before, EntryOf(row)) == before;
        continue;
      }
      username := Lower(username);
      var ownedPackages := NormalizePackages(packagesField);
      AddEntryOfRow(before, row, username, ownedPackages);
      if username !in userPackages {
        userPackages := userPackages[username := {}];
      }
      CreateThenUpdate(before, username, ownedPackages);
      userPackages := userPackages[username := userPackages[username] + ownedPackages];
    }
    assert rows[..|rows|] == rows;
  }

  /** The update tool.py:43-45 makes for a row with a non-blank username. */
  lemma AddEntryOfRow(index: Index, row: Row, username: string, owned: set<string>)
    requires Strip(Cell(row, "Username")) != []
    requires username == Lower(Strip(Cell(row, "Username")))
    requires owned == PackagesOf(row)
    ensures AddEntry(index, EntryOf(row)) ==
      index[username := (if username in index then index[username] else {}) + owned]
  {
  }

  /** Creating a missing set and then growing it is adding to the set the key already had. */
  lemma CreateThenUpdate(index: Index, k: string, owned: set<string>)
    ensures var created := if k in index then index else index[k := {}];
      created[k := created[k] + owned] == index[k := (if k in index then index[k] else {}) + owned]
  {
  }

  /** Reading one more row adds that row's entry to the index. */
  lemma PoolStep(rows: seq<Row>, n: nat)
    requires n < |rows|
    ensures Pool(Entries(rows[..n + 1])) == AddEntry(Pool(Entries(rows[..n])), EntryOf(rows[n]))
  {
    var entries := Entries(rows[..n + 1]);
    assert entries[..n] == Entries(rows[..n]);
  }

  lemma {:induction false} PoolKeys(entries: seq<Entry>, k: string)
    ensures k in Pool(entries) <==> exists i :: 0 <= i < |entries| && entries[i].key == Some(k)
  {
    if entries != [] {
      var n := |entries| - 1;
      var init := entries[..n];
      PoolKeys(init, k);
      if exists i :: 0 <= i < n && init[i].key == Some(k) {
        var i :| 0 <= i < n && init[i].key == Some(k);
        assert entries[i].key == Some(k);
      }
      if exists i :: 0 <= i < |entries| && entries[i].key == Some(k) {
        var i :| 0 <= i < |entries| && entries[i].key == Some(k);
        if i < n {
          assert init[i].key == Some(k);
        }
      }
    }
  }

  lemma {:induction false} PoolUnion(entries: seq<Entry>, k: string, p: string)
    ensures (k in Pool(entries) && p in Pool(entries)[k]) <==>
      exists i :: 0 <= i < |entries| && entries[i].key == Some(k) && p in entries[i].packages
  {
    if entries != [] {
      var n := |entries| - 1;
      var init := entries[..n];
      PoolUnion(init, k, p);
      if exists i :: 0 <= i < n && init[i].key == Some(k) && p in init[i].packages {
        var i :| 0 <= i < n && init[i].key == Some(k) && p in init[i].packages;
        assert entries[i].key == Some(k) && p in entries[i].packages;
      }
      if exists i :: 0 <= i < |entries| && entries[i].key == Some(k) && p in entries[i].packages {
        var i :| 0 <= i < |entries| && entries[i].key == Some(k) && p in entries[i].packages;
        if i < n {
          assert init[i].key == Some(k) && p in init[i].packages;
        }
      }
    }
  }

  /** A key is in the index exactly when some row is filed under it. */
  lemma IndexKeys(rows: seq<Row>, k: string)
    ensures k in IndexOf(rows) <==> exists i :: 0 <= i < |rows| && UserKey(rows[i]) == Some(k)
  {
    PoolKeys(Entries(rows), k);
  }

  lemma IndexKeysAreLowerCase(rows: seq<Row>)
    ensures forall k :: k in Pool(Entries(rows)) ==> k != [] && IsLowerCase(k)
  {
    forall k | k in Pool(Entries(rows)) ensures k != [] && IsLowerCase(k) {
      PoolKeys(Entries(rows), k);
      var i :| 0 <= i < |rows| && Entries(rows)[i].key == Some(k);
      assert UserKey(rows[i]) == Some(k);
    }
  }

  /**
    Union, never overwrite: a user owns a package exactly when some row filed under
    that user lists it.
  */
  lemma OwnedIsUnionOfRows(rows: seq<Row>, k: string, p: string)
    ensures (k in IndexOf(rows) && p in IndexOf(rows)[k]) <==>
      exists i :: 0 <= i < |rows| && UserKey(rows[i]) == Some(k) && p in PackagesOf(rows[i])
  {
    PoolUnion(Entries(rows), k, p);
  }

  /**
    Two rows whose usernames differ only in letter case (and surrounding blanks)
    share one entry, which holds the packages of both.
  */
  lemma CaseVariantsShareEntry(a: Row, b: Row)
    requires Strip(Cell(a, "Username")) != []
    requires EqualIgnoringCase(Strip(Cell(a, "Username")), Strip(Cell(b, "Username")))
    ensures UserKey(a) == UserKey(b) && UserKey(a).Some?
    ensures IndexOf([a, b]) == map[UserKey(a).value := PackagesOf(a) + PackagesOf(b)]
  {
    LowerIdentifiesCaseVariants(Strip(Cell(a, "Username")), Strip(Cell(b, "Username")));
    var k := UserKey(a).value;
    var entries := Entries([a, b]);
    PoolOfTwo(entries);
    SameKeyTwice(k, entries[0], entries[1]);
  }

  lemma PoolOfTwo(entries: seq<Entry>)
    requires |entries| == 2
    ensures Pool(entries) == AddEntry(AddEntry(map[], entries[0]), entries[1])
  {
    var first := entries[..1];
    assert first[..0] == [] && first[0] == entries[0];
    assert Pool(first) == AddEntry(map[], entries[0]);
  }

  lemma SameKeyTwice(k: string, first: Entry, second: Entry)
    requires first.key == Some(k) && second.key == Some(k)
    ensures AddEntry(AddEntry(map[], first), second) == map[k := first.packages + second.packages]
  {
    assert {} + first.packages == first.packages;
  }

  /** The index does not depend on the order of the rows. */
  lemma IndexIgnoresRowOrder(rows: seq<Row>, shuffled: seq<Row>)
    requires multiset(rows) == multiset(shuffled)
    ensures IndexOf(rows) == IndexOf(shuffled)
  {
    forall k ensures k in IndexOf(rows) <==> k in IndexOf(shuffled) {
      IndexKeys(rows, k);
      IndexKeys(shuffled, k);
      SameRowsWitness(rows, shuffled, k);
      SameRowsWitness(shuffled, rows, k);
    }
    forall k | k in IndexOf(rows) ensures IndexOf(rows)[k] == IndexOf(shuffled)[k] {
      forall p ensures p in IndexOf(rows)[k] <==> p in IndexOf(shuffled)[k] {
        OwnedIsUnionOfRows(rows, k, p);
        OwnedIsUnionOfRows(shuffled, k, p);
        SameRowsOwnedWitness(rows, shuffled, k, p);
        SameRowsOwnedWitness(shuffled, rows, k, p);
      }
    }
  }

  lemma SameRowsWitness(rows: seq<Row>, other: seq<Row>, k: string)
    requires multiset(rows) == multiset(other)
    ensures (exists i :: 0 <= i < |rows| && UserKey(rows[i]) == Some(k)) ==>
      exists j :: 0 <= j < |other| && UserKey(other[j]) == Some(k)
  {
    if exists i :: 0 <= i < |rows| && UserKey(rows[i]) == Some(k) {
      var i :| 0 <= i < |rows| && UserKey(rows[i]) == Some(k);
      assert rows[i] in multiset(other);
      var j :| 0 <= j < |other| && other[j] == rows[i];
    }
  }

  lemma SameRowsOwnedWitness(rows: seq<Row>, other: seq<Row>, k: string, p: string)
    requires multiset(rows) == multiset(other)
    ensures (exists i :: 0 <= i < |rows| && UserKey(rows[i]) == Some(k) && p in PackagesOf(rows[i])) ==>
      exists j :: 0 <= j < |other| && UserKey(other[j]) == Some(k) && p in PackagesOf(other[j])
  {
    if exists i :: 0 <= i < |rows| && UserKey(rows[i]) == Some(k) && p in PackagesOf(rows[i]) {
      var i :| 0 <= i < |rows| && UserKey(rows[i]) == Some(k) && p in PackagesOf(rows[i]);
      assert rows[i] in multiset(other);
      var j :| 0 <= j < |other| && other[j] == rows[i];
    }
  }
}

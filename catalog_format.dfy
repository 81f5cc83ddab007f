/** The two catalog formats `KnownSourceDB.parse` reads, the scan over their
    lines, and the ordered index it builds, as values. The in-place version
    with the scratch `KnownSource` object is `KnownSourceCatalog.KnownSourceDB.Parse`. */
module CatalogFormat {
  import opened Wrappers
  import opened Text
  import opened KnownSourceRecord

  // ---------------------------------------------------------------------
  // Format detection: only the first line of the file is looked at

  /** `isCatalogueFile`: the first line starts with "#CATALOGUE". An empty
      file makes the method fall off its loop and return None, read as false. */
  predicate IsCatalogueFile(lines: seq<string>) {
    |lines| > 0 && StartsWith(lines[0], "#CATALOGUE")
  }

  /** `isCatalogueWebOutput`: the first line starts with "-". */
  predicate IsCatalogueWebOutput(lines: seq<string>) {
    |lines| > 0 && StartsWith(lines[0], "-")
  }

  /** A file is recognised by its first line alone, and never as both formats. */
  lemma DetectionFirstLineOnly(lines: seq<string>, others: seq<string>)
    requires |lines| > 0
    ensures IsCatalogueFile(lines) == IsCatalogueFile([lines[0]] + others)
    ensures IsCatalogueWebOutput(lines) == IsCatalogueWebOutput([lines[0]] + others)
    ensures !(IsCatalogueFile(lines) && IsCatalogueWebOutput(lines))
  {
    if IsCatalogueFile(lines) {
      assert lines[0][0] == "#CATALOGUE"[0];
    }
  }

  // ---------------------------------------------------------------------
  // The scan state

  /** What the parse loop keeps: the scratch record, the `knownSources`
      dictionary (with its keys in the order they were first added) and, for
      the web format, the header `columnDictionary`. */
  datatype Scan = Scan(temp: Record, known: map<string, Record>, names: seq<string>, columns: map<string, nat>)

  function Start(): Scan {
    Scan(Blank(Unknown), map[], [], map[])
  }

  /** `knownSources[temp.sourceName] = deepcopy(temp)`, then the scratch
      record is reset to no parameters, sort key 0 and name "Unknown". */
  function Commit(s: Scan): Scan {
    Scan(Blank(Unknown), s.known[s.temp.name := s.temp],
         if s.temp.name in s.known then s.names else s.names + [s.temp.name], s.columns)
  }

  predicate Distinct(s: seq<string>) {
    forall i, j :: 0 <= i < j < |s| ==> s[i] != s[j]
  }

  /** The dictionary's keys are listed once each, every entry is stored under
      its own name, and every record is settled. */
  ghost predicate Consistent(s: Scan) {
    && Distinct(s.names)
    && (forall n :: n in s.known <==> n in s.names)
    && (forall n :: n in s.known ==> s.known[n].name == n && Settled(s.known[n]))
    && Settled(s.temp)
  }

  lemma BlankSettled()
    ensures Settled(Blank(Unknown))
  {
    assert GetParameter(Blank(Unknown), "RAJ").None?;
  }

  lemma CommitConsistent(s: Scan)
    requires Consistent(s)
    ensures Consistent(Commit(s))
    ensures |Commit(s).names| <= |s.names| + 1
  {
    BlankSettled();
    var t := Commit(s);
    if s.temp.name !in s.known {
      forall i, j | 0 <= i < j < |t.names| ensures t.names[i] != t.names[j] {
        if j == |s.names| {
          assert s.names[i] in s.known;
        }
      }
    }
  }

  // ---------------------------------------------------------------------
  // The plain catalog format

  /** One line of the plain catalog: "#" lines are comments, "@" ends the
      current source, a line longer than two characters is a parameter line,
      anything else is ignored. `line[0]` on an empty line raises IndexError. */
  function PlainStep(s: Scan, line: string): Result<Scan> {
    if |line| == 0 then Failure(IndexError)
    else if line[0] == '#' then Success(s)
    else if line[0] == '@' then Success(Commit(s))
    else if |line| > 2 then
      var r := AddParameterTo(s.temp, line);
      if r.Failure? then Failure(r.error) else Success(s.(temp := r.value))
    else Success(s)
  }

  /** The scan after the given lines of a plain catalog, in order. */
  function PlainRun(lines: seq<string>): Result<Scan>
    decreases |lines|
  {
    if lines == [] then Success(Start())
    else
      var prev := PlainRun(lines[..|lines| - 1]);
      if prev.Failure? then prev else PlainStep(prev.value, lines[|lines| - 1])
  }

  lemma PlainStepConsistent(s: Scan, line: string)
    requires Consistent(s) && PlainStep(s, line).Success?
    ensures Consistent(PlainStep(s, line).value)
  {
    if line[0] == '@' {
      CommitConsistent(s);
    } else if line[0] != '#' && |line| > 2 {
      AddSettles(s.temp, line);
    }
  }

  /** Every record the plain scan holds is settled and stored under its own
      name, and the dictionary's keys are listed once each. */
  lemma {:induction false} PlainRunConsistent(lines: seq<string>)
    requires PlainRun(lines).Success?
    ensures Consistent(PlainRun(lines).value)
    decreases |lines|
  {
    if lines == [] {
      BlankSettled();
    } else {
      PlainRunConsistent(lines[..|lines| - 1]);
      PlainStepConsistent(PlainRun(lines[..|lines| - 1]).value, lines[|lines| - 1]);
    }
  }

  /** Lines after the last "@" change only the scratch record: nothing they
      describe reaches the dictionary. */
  lemma {:induction false} AfterLastSeparatorNotCommitted(lines: seq<string>, tail: seq<string>)
    requires forall i :: 0 <= i < |tail| ==> |tail[i]| > 0 && tail[i][0] != '@'
    requires PlainRun(lines + tail).Success?
    ensures PlainRun(lines).Success?
    ensures PlainRun(lines + tail).value.known == PlainRun(lines).value.known
    ensures PlainRun(lines + tail).value.names == PlainRun(lines).value.names
    decreases |tail|
  {
    if tail == [] {
      assert lines + tail == lines;
    } else {
      var all := lines + tail;
      assert all[..|all| - 1] == lines + tail[..|tail| - 1];
      AfterLastSeparatorNotCommitted(lines, tail[..|tail| - 1]);
    }
  }

  /** An exception ends the scan: a failed prefix fails the whole file. */
  lemma {:induction false} PlainFailureSticks(lines: seq<string>, k: nat)
    requires k <= |lines| && PlainRun(lines[..k]).Failure?
    ensures PlainRun(lines).Failure?
    decreases |lines| - k
  {
    if k < |lines| {
      assert lines[..k + 1][..k] == lines[..k];
      PlainFailureSticks(lines, k + 1);
    } else {
      assert lines[..k] == lines;
    }
  }

  /** An "@" line stores the scratch record under its name, replacing an
      earlier source of the same name, and starts a blank one. */
  lemma SeparatorCommits(lines: seq<string>, sep: string)
    requires |sep| > 0 && sep[0] == '@' && PlainRun(lines).Success?
    ensures var s := PlainRun(lines).value;
            var t := PlainRun(lines + [sep]);
            t.Success? && t.value.known == s.known[s.temp.name := s.temp]
            && t.value.temp == Blank(Unknown)
            && (s.temp.name in s.known ==> t.value.names == s.names)
  {
    assert (lines + [sep])[..|lines|] == lines;
  }

  // ---------------------------------------------------------------------
  // The web "long with errors" format

  /** The token a header column's values sit at: the first three columns
      ("#", NAME, RAJ) at their own position, column `i > 2` at `(i-1)*2`,
      because every column after RAJ's value is followed by its error. */
  function Column(i: nat): nat {
    if i > 2 then (i - 1) * 2 else i
  }

  /** The header loop: each header at position `i` is mapped to `Column(i)`,
      later headers of the same name overriding earlier ones. */
  function AddHeaders(columns: map<string, nat>, headers: seq<string>): map<string, nat>
    decreases |headers|
  {
    if headers == [] then columns
    else AddHeaders(columns, headers[..|headers| - 1])[headers[|headers| - 1] := Column(|headers| - 1)]
  }

  /** The last occurrence of a header decides its column; headers not in the
      line keep what an earlier header line gave them. */
  lemma {:induction false} HeaderColumn(columns: map<string, nat>, headers: seq<string>, i: nat)
    requires i < |headers| && headers[i] !in headers[i + 1..]
    ensures headers[i] in AddHeaders(columns, headers)
    ensures AddHeaders(columns, headers)[headers[i]] == Column(i)
    decreases |headers|
  {
    var m := |headers| - 1;
    if i < m {
      assert headers[..m][i + 1..] == headers[i + 1..m];
      assert headers[m] in headers[i + 1..];
      HeaderColumn(columns, headers[..m], i);
    }
  }

  lemma {:induction false} HeaderAbsent(columns: map<string, nat>, headers: seq<string>, k: string)
    requires k !in headers
    ensures k in columns ==> k in AddHeaders(columns, headers) && AddHeaders(columns, headers)[k] == columns[k]
    ensures k !in columns ==> k !in AddHeaders(columns, headers)
    decreases |headers|
  {
    if headers != [] {
      assert headers[|headers| - 1] in headers;
      HeaderAbsent(columns, headers[..|headers| - 1], k);
    }
  }

  lemma AddHeadersSnoc(columns: map<string, nat>, headers: seq<string>, h: string)
    ensures AddHeaders(columns, headers + [h]) == AddHeaders(columns, headers)[h := Column(|headers|)]
  {
    assert (headers + [h])[..|headers|] == headers;
  }

  /** The header of the "long with errors" table. */
  const LongHeaders: seq<string> := ["#", "NAME", "RAJ", "DECJ", "P0", "F0", "DM"]

  /** Its columns sit at tokens 1, 2, 4, 6, 8 and 10 of a data row. */
  lemma LongHeaderColumns()
    ensures AddHeaders(map[], LongHeaders)
            == map["#" := 0, "NAME" := 1, "RAJ" := 2, "DECJ" := 4, "P0" := 6, "F0" := 8, "DM" := 10]
  {
    var e: map<string, nat> := map[];
    var h0: seq<string> := [];
    var h1 := h0 + ["#"];
    var h2 := h1 + ["NAME"];
    var h3 := h2 + ["RAJ"];
    var h4 := h3 + ["DECJ"];
    var h5 := h4 + ["P0"];
    var h6 := h5 + ["F0"];
    var h7 := h6 + ["DM"];
    assert h7 == LongHeaders;
    AddHeadersSnoc(e, h0, "#");
    AddHeadersSnoc(e, h1, "NAME");
    AddHeadersSnoc(e, h2, "RAJ");
    AddHeadersSnoc(e, h3, "DECJ");
    AddHeadersSnoc(e, h4, "P0");
    AddHeadersSnoc(e, h5, "F0");
    AddHeadersSnoc(e, h6, "DM");
    assert AddHeaders(e, h0) == e;
  }

  /** The keys a data row is read for, in the order the model visits them. */
  const RowKeys: seq<string> := ["NAME", "RAJ", "DECJ", "P0", "F0", "DM"]

  /** The catalog line a data row contributes for one column: a NAME with a
      "J" becomes a PSRJ line, any other name a PSRB line; the other columns
      give their value and its error. A column past the row's end raises
      IndexError. */
  function RowLine(key: string, tokens: seq<string>, index: nat): Result<string> {
    if key == "NAME" then
      if index >= |tokens| then Failure(IndexError)
      else
        var name := tokens[index];
        Success((if 'J' in name then "PSRJ" else "PSRB") + "    " + name + "    0    0")
    else if index + 1 >= |tokens| then Failure(IndexError)
    else Success(key + "    " + tokens[index] + "    " + tokens[index + 1] + "    0")
  }

  /** The scratch record after the row's columns, taken in the order of `keys`. */
  function FillRow(temp: Record, columns: map<string, nat>, tokens: seq<string>, keys: seq<string>): Result<Record>
    decreases |keys|
  {
    if keys == [] then Success(temp)
    else
      var prev := FillRow(temp, columns, tokens, keys[..|keys| - 1]);
      if prev.Failure? then prev else FillColumn(prev.value, columns, tokens, keys[|keys| - 1])
  }

  /** One column of a data row: a key with a known column adds its catalog
      line to the scratch record; any other key leaves it as it is. */
  function FillColumn(temp: Record, columns: map<string, nat>, tokens: seq<string>, key: string): Result<Record> {
    if key !in columns then Success(temp)
    else
      var line := RowLine(key, tokens, columns[key]);
      if line.Failure? then Failure(line.error) else AddParameterTo(temp, line.value)
  }

  /** One line of the web table: "-" rules and lines starting with a blank
      or a line break are skipped, a "#" line is a header, and any other line
      is a data row that becomes one source. */
  function WebStep(s: Scan, line: string): Result<Scan> {
    if |line| == 0 then Failure(IndexError)
    else if line[0] == '-' || line[0] == ' ' || line[0] == '\n' || line[0] == '\r' then Success(s)
    else if line[0] == '#' then Success(s.(columns := AddHeaders(s.columns, Tokens(line))))
    else
      var r := FillRow(s.temp, s.columns, Tokens(line), RowKeys);
      if r.Failure? then Failure(r.error) else Success(Commit(s.(temp := r.value)))
  }

  function WebRun(lines: seq<string>): Result<Scan>
    decreases |lines|
  {
    if lines == [] then Success(Start())
    else
      var prev := WebRun(lines[..|lines| - 1]);
      if prev.Failure? then prev else WebStep(prev.value, lines[|lines| - 1])
  }

  lemma {:induction false} WebFailureSticks(lines: seq<string>, k: nat)
    requires k <= |lines| && WebRun(lines[..k]).Failure?
    ensures WebRun(lines).Failure?
    decreases |lines| - k
  {
    if k < |lines| {
      assert lines[..k + 1][..k] == lines[..k];
      WebFailureSticks(lines, k + 1);
    } else {
      assert lines[..k] == lines;
    }
  }

  lemma {:induction false} FillRowFailureSticks(temp: Record, columns: map<string, nat>, tokens: seq<string>, keys: seq<string>, k: nat)
    requires k <= |keys| && FillRow(temp, columns, tokens, keys[..k]).Failure?
    ensures FillRow(temp, columns, tokens, keys).Failure?
    decreases |keys| - k
  {
    if k < |keys| {
      assert keys[..k + 1][..k] == keys[..k];
      FillRowFailureSticks(temp, columns, tokens, keys, k + 1);
    } else {
      assert keys[..k] == keys;
    }
  }

  lemma {:induction false} FillRowSettled(temp: Record, columns: map<string, nat>, tokens: seq<string>, keys: seq<string>)
    requires Settled(temp) && FillRow(temp, columns, tokens, keys).Success?
    ensures Settled(FillRow(temp, columns, tokens, keys).value)
    decreases |keys|
  {
    if keys != [] {
      var prev := FillRow(temp, columns, tokens, keys[..|keys| - 1]);
      FillRowSettled(temp, columns, tokens, keys[..|keys| - 1]);
      var key := keys[|keys| - 1];
      if key in columns {
        AddSettles(prev.value, RowLine(key, tokens, columns[key]).value);
      }
    }
  }

  /** Each data row adds or replaces exactly one source, under the name the
      row gave the scratch record, and leaves a blank scratch record. */
  lemma OneSourcePerRow(s: Scan, line: string)
    requires Consistent(s) && |line| > 0 && line[0] !in "- \n\r#"
    requires WebStep(s, line).Success?
    ensures var r := FillRow(s.temp, s.columns, Tokens(line), RowKeys).value;
            var t := WebStep(s, line).value;
            t.known == s.known[r.name := r] && t.temp == Blank(Unknown)
            && |s.names| <= |t.names| <= |s.names| + 1
            && Consistent(t)
  {
    var r := FillRow(s.temp, s.columns, Tokens(line), RowKeys).value;
    FillRowSettled(s.temp, s.columns, Tokens(line), RowKeys);
    CommitConsistent(s.(temp := r));
  }

  lemma WebStepConsistent(s: Scan, line: string)
    requires Consistent(s) && WebStep(s, line).Success?
    ensures Consistent(WebStep(s, line).value)
  {
    if line[0] !in "- \n\r#" {
      OneSourcePerRow(s, line);
    }
  }

  lemma {:induction false} WebRunConsistent(lines: seq<string>)
    requires WebRun(lines).Success?
    ensures Consistent(WebRun(lines).value)
    decreases |lines|
  {
    if lines == [] {
      BlankSettled();
    } else {
      WebRunConsistent(lines[..|lines| - 1]);
      WebStepConsistent(WebRun(lines[..|lines| - 1]).value, lines[|lines| - 1]);
    }
  }

  /** Four words joined by runs of blanks split back into those words. */
  lemma FourTokens(a: string, b: string, c: string, d: string)
    requires |a| > 0 && |b| > 0 && |c| > 0 && |d| > 0
    requires NoSpace(a) && NoSpace(b) && NoSpace(c) && NoSpace(d)
    ensures Tokens(a + "    " + b + "    " + c + "    " + d) == [a, b, c, d]
  {
    var sep := "    ";
    assert AllSpace(sep);
    assert a + sep + b + sep + c + sep + d == a + sep + (b + sep + (c + sep + d));
    TokensOfLastWord(d, "");
    assert d + "" == d;
    TokensOfWord(c, sep, d);
    TokensOfWord(b, sep, c + sep + d);
    TokensOfWord(a, sep, b + sep + (c + sep + d));
  }

  /** A column line carries the key, the value at the column's token, its
      error from the next token and a trailing "0"; a name line carries the
      name between a PSRJ or PSRB key and two zeros. */
  lemma RowLineTokens(key: string, tokens: seq<string>, index: nat)
    requires |key| > 0 && NoSpace(key)
    requires forall i :: 0 <= i < |tokens| ==> |tokens[i]| > 0 && NoSpace(tokens[i])
    requires RowLine(key, tokens, index).Success?
    ensures key == "NAME" ==>
              Tokens(RowLine(key, tokens, index).value)
              == [if 'J' in tokens[index] then "PSRJ" else "PSRB", tokens[index], "0", "0"]
    ensures key != "NAME" ==>
              Tokens(RowLine(key, tokens, index).value) == [key, tokens[index], tokens[index + 1], "0"]
  {
    var zero := "0";
    assert NoSpace(zero);
    var sep := "    ";
    if key == "NAME" {
      var k := if 'J' in tokens[index] then "PSRJ" else "PSRB";
      assert NoSpace(k);
      assert RowLine(key, tokens, index).value == k + sep + tokens[index] + sep + zero + sep + zero;
      FourTokens(k, tokens[index], zero, zero);
    } else {
      assert RowLine(key, tokens, index).value == key + sep + tokens[index] + sep + tokens[index + 1] + sep + zero;
      FourTokens(key, tokens[index], tokens[index + 1], zero);
    }
  }

  // ---------------------------------------------------------------------
  // The ordered index

  /** The sort key of the named record (0 for a name the map lacks, which
      an index as `parse` builds never has). */
  function KeyOf(known: map<string, Record>, n: string): int {
    if n in known then known[n].sortKey else 0
  }

  predicate AllKnown(names: seq<string>, known: map<string, Record>) {
    forall i :: 0 <= i < |names| ==> names[i] in known
  }

  /** The sort keys of the named records, position by position. */
  function Keys(names: seq<string>, known: map<string, Record>): (k: seq<int>)
    ensures |k| == |names|
    ensures forall i :: 0 <= i < |names| ==> k[i] == KeyOf(known, names[i])
    decreases |names|
  {
    if names == [] then [] else Keys(names[..|names| - 1], known) + [KeyOf(known, names[|names| - 1])]
  }

  predicate Ascending(k: seq<int>) {
    forall i, j :: 0 <= i < j < |k| ==> k[i] <= k[j]
  }

  /** Where a stable sort places `x` among already sorted names: after every
      name whose key is not larger. */
  function InsertionPoint(sorted: seq<string>, known: map<string, Record>, x: string): (k: nat)
    ensures k <= |sorted|
    ensures forall i :: k <= i < |sorted| ==> KeyOf(known, sorted[i]) > KeyOf(known, x)
    ensures k > 0 ==> KeyOf(known, sorted[k - 1]) <= KeyOf(known, x)
    decreases |sorted|
  {
    if sorted == [] then 0
    else if KeyOf(known, sorted[|sorted| - 1]) <= KeyOf(known, x) then |sorted|
    else InsertionPoint(sorted[..|sorted| - 1], known, x)
  }

  /** Python's stable `sorted(..., key=sortAttribute)`, on the names of the
      records: an insertion sort that keeps equal keys in their first order. */
  function SortNames(names: seq<string>, known: map<string, Record>): (r: seq<string>)
    ensures multiset(r) == multiset(names)
    decreases |names|
  {
    if names == [] then []
    else
      var rest := names[..|names| - 1];
      var x := names[|names| - 1];
      var s := SortNames(rest, known);
      var k := InsertionPoint(s, known, x);
      LastSplits(names);
      InsertPermutes(s, k, x);
      s[..k] + [x] + s[k..]
  }

  lemma LastSplits(names: seq<string>)
    requires names != []
    ensures multiset(names) == multiset(names[..|names| - 1]) + multiset{names[|names| - 1]}
  {
    assert names == names[..|names| - 1] + [names[|names| - 1]];
  }

  lemma InsertPermutes(s: seq<string>, k: nat, x: string)
    requires k <= |s|
    ensures multiset(s[..k] + [x] + s[k..]) == multiset(s) + multiset{x}
  {
    assert s == s[..k] + s[k..];
  }

  predicate SortedBy(names: seq<string>, known: map<string, Record>) {
    forall i, j :: 0 <= i < j < |names| ==> KeyOf(known, names[i]) <= KeyOf(known, names[j])
  }

  /** The element at position `m` once `x` is inserted at `k`. */
  lemma InsertedAt(s: seq<string>, k: nat, x: string, m: nat)
    requires k <= |s| && m <= |s|
    ensures (s[..k] + [x] + s[k..])[m] == if m < k then s[m] else if m == k then x else s[m - 1]
  {
  }

  lemma InsertPairSorted(s: seq<string>, known: map<string, Record>, x: string, i: nat, j: nat)
    requires SortedBy(s, known)
    requires var k := InsertionPoint(s, known, x); i < j < |s[..k] + [x] + s[k..]|
    ensures var k := InsertionPoint(s, known, x);
            var r := s[..k] + [x] + s[k..];
            KeyOf(known, r[i]) <= KeyOf(known, r[j])
  {
    var k := InsertionPoint(s, known, x);
    InsertedAt(s, k, x, i);
    InsertedAt(s, k, x, j);
    if j == k {
      assert KeyOf(known, s[i]) <= KeyOf(known, s[k - 1]);
    } else if i == k {
      assert KeyOf(known, s[j - 1]) > KeyOf(known, x);
    } else {
      var a := if i < k then i else i - 1;
      var b := if j < k then j else j - 1;
      assert a <= b;
      if a < b {
        assert KeyOf(known, s[a]) <= KeyOf(known, s[b]);
      }
    }
  }

  lemma InsertKeepsSorted(s: seq<string>, known: map<string, Record>, x: string)
    requires SortedBy(s, known)
    ensures var k := InsertionPoint(s, known, x);
            SortedBy(s[..k] + [x] + s[k..], known)
  {
    var k := InsertionPoint(s, known, x);
    var r := s[..k] + [x] + s[k..];
    forall i, j | 0 <= i < j < |r| ensures KeyOf(known, r[i]) <= KeyOf(known, r[j]) {
      InsertPairSorted(s, known, x, i, j);
    }
  }

  lemma InsertKeepsDistinct(s: seq<string>, x: string, k: nat)
    requires Distinct(s) && x !in s && k <= |s|
    ensures Distinct(s[..k] + [x] + s[k..])
  {
    var r := s[..k] + [x] + s[k..];
    assert forall i :: 0 <= i < k ==> r[i] == s[i];
    assert r[k] == x;
    assert forall i :: k < i < |r| ==> r[i] == s[i - 1];
  }

  /** The sorted names have ascending keys. */
  lemma {:induction false} SortNamesAscending(names: seq<string>, known: map<string, Record>)
    ensures SortedBy(SortNames(names, known), known)
    ensures Ascending(Keys(SortNames(names, known), known))
    decreases |names|
  {
    if names != [] {
      var rest := names[..|names| - 1];
      SortNamesAscending(rest, known);
      InsertKeepsSorted(SortNames(rest, known), known, names[|names| - 1]);
    }
  }

  /** Distinct names stay distinct: the sorted list lists every name once. */
  lemma {:induction false} SortNamesDistinct(names: seq<string>, known: map<string, Record>)
    requires Distinct(names)
    ensures Distinct(SortNames(names, known))
    decreases |names|
  {
    if names != [] {
      var rest := names[..|names| - 1];
      var x := names[|names| - 1];
      var s := SortNames(rest, known);
      SortNamesDistinct(rest, known);
      assert x !in multiset(rest);
      assert x !in s;
      InsertKeepsDistinct(s, x, InsertionPoint(s, known, x));
    }
  }

  /** `orderedSourcesDict` and `orderedAccess`: every committed source under
      its name, and the names in ascending order of sort key. */
  datatype Catalog = Catalog(sources: map<string, Record>, access: seq<string>)

  /** The index built from a scan. */
  function Index(s: Scan): Catalog {
    Catalog(s.known, SortNames(s.names, s.known))
  }

  /** The scan of the whole file, in the format its first line names. */
  function Scanned(lines: seq<string>): Result<Scan> {
    if IsCatalogueFile(lines) then PlainRun(lines)
    else if IsCatalogueWebOutput(lines) then WebRun(lines)
    else Success(Start())
  }

  lemma ScannedConsistent(lines: seq<string>)
    requires Scanned(lines).Success?
    ensures Consistent(Scanned(lines).value)
  {
    if IsCatalogueFile(lines) {
      PlainRunConsistent(lines);
    } else if IsCatalogueWebOutput(lines) {
      WebRunConsistent(lines);
    } else {
      BlankSettled();
    }
  }

  /** What `parse` leaves: an exception, None for "returned False" (no
      source was committed, or the first line names neither format), or
      the ordered catalog. */
  function Parse(lines: seq<string>): Result<Option<Catalog>> {
    var scan := Scanned(lines);
    if scan.Failure? then Failure(scan.error)
    else if |scan.value.known| < 1 then Success(None)
    else Success(Some(Index(scan.value)))
  }

  /** A catalog index as `parse` leaves it: position maps bijectively onto
      the stored names, the keys ascend, each source sits under its own name
      and every one is settled. */
  predicate Ordered(c: Catalog) {
    && AllKnown(c.access, c.sources)
    && Distinct(c.access)
    && (forall n :: n in c.sources ==> n in c.access)
    && (forall n :: n in c.sources ==> c.sources[n].name == n && Settled(c.sources[n]))
    && Ascending(Keys(c.access, c.sources))
  }

  /** `parse` returns False exactly when nothing was committed; otherwise
      the index lists every committed source once, in ascending key order. */
  lemma ParseIndexes(lines: seq<string>)
    requires Parse(lines).Success?
    ensures Parse(lines).value.None? <==> |Scanned(lines).value.known| == 0
    ensures Parse(lines).value.Some? ==>
              var c := Parse(lines).value.value;
              Ordered(c) && |c.access| == |c.sources| > 0
  {
    var s := Scanned(lines).value;
    ScannedConsistent(lines);
    if |s.known| > 0 {
      IndexOrdered(s);
    }
  }

  lemma IndexOrdered(s: Scan)
    requires Consistent(s)
    ensures Ordered(Index(s)) && |Index(s).access| == |s.known|
  {
    var c := Index(s);
    SortNamesAscending(s.names, s.known);
    SortNamesDistinct(s.names, s.known);
    forall n | n in c.sources ensures n in c.access {
      assert n in multiset(s.names);
    }
    forall i | 0 <= i < |c.access| ensures c.access[i] in c.sources {
      assert c.access[i] in multiset(s.names);
    }
    DistinctLength(c.access, c.sources);
  }

  /** A list of distinct names that covers a map's keys is as long as the map. */
  lemma {:induction false} DistinctLength(names: seq<string>, m: map<string, Record>)
    requires Distinct(names) && AllKnown(names, m)
    requires forall n :: n in m ==> n in names
    ensures |names| == |m|
    decreases |names|
  {
    if names != [] {
      var x := names[|names| - 1];
      var rest := names[..|names| - 1];
      var m' := map n | n in m && n != x :: m[n];
      assert m'.Keys == m.Keys - {x};
      forall n | n in m' ensures n in rest {
        var i :| 0 <= i < |names| && names[i] == n;
        assert i < |names| - 1;
        assert rest[i] == n;
      }
      forall i | 0 <= i < |rest| ensures rest[i] in m' {
        assert rest[i] == names[i];
      }
      DistinctLength(rest, m');
    } else {
      assert m.Keys == {};
    }
  }

  /** A file whose first line names neither format parses to nothing. */
  lemma UnknownFormatParsesNothing(lines: seq<string>)
    requires !IsCatalogueFile(lines) && !IsCatalogueWebOutput(lines)
    ensures Parse(lines) == Success(None)
  {
    assert |Start().known| == 0;
  }
}

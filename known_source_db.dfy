/** `KnownSourceDB`: the catalog is read line by line into a scratch
    `KnownSource` object, indexed by sort key, and candidates are matched
    against it in place, counting and recording every possible match. Each
    method here is proved against the value-level rules of `CatalogFormat`
    and `MatchRules`. */
module KnownSourceCatalog {
  import opened Wrappers
  import opened Text
  import opened KnownSourceRecord
  import opened CatalogFormat
  import opened MatchRules

  // ---------------------------------------------------------------------
  // The two parse loops, each with its own scratch KnownSource

  /** The loop of `parse` over a plain catalog; `ok` is false where Python
      raises. `names` lists the dictionary's keys in the order they were
      first added. */
  method ScanPlainCatalog(lines: seq<string>) returns (ok: bool, known: map<string, Record>, names: seq<string>)
    ensures ok == PlainRun(lines).Success?
    ensures ok ==> known == PlainRun(lines).value.known && names == PlainRun(lines).value.names
  {
    var temp := new KnownSource(Unknown);
    known, names := map[], [];
    var i := 0;
    while i < |lines|
      invariant 0 <= i <= |lines|
      invariant PlainRun(lines[..i]) == Success(Scan(temp.Snapshot(), known, names, map[]))
    {
      var line := lines[i];
      assert lines[..i + 1][..i] == lines[..i];
      if |line| == 0 {
        PlainFailureSticks(lines, i + 1);
        return false, known, names;
      }
      if line[0] == '#' {
      } else if line[0] == '@' {
        if temp.name !in known {
          names := names + [temp.name];
        }
        known := known[temp.name := temp.Snapshot()];
        temp.parameters := map[];
        temp.sortKey := 0;
        temp.name := Unknown;
      } else if |line| > 2 {
        var added := temp.AddParameter(line);
        if !added {
          PlainFailureSticks(lines, i + 1);
          return false, known, names;
        }
      }
      i := i + 1;
    }
    assert lines[..i] == lines;
    ok := true;
  }

  /** The header loop of the web format: header `i` names token `Column(i)`. */
  method AddHeaderColumns(columns: map<string, nat>, headers: seq<string>) returns (r: map<string, nat>)
    ensures r == AddHeaders(columns, headers)
  {
    r := columns;
    var i := 0;
    while i < |headers|
      invariant 0 <= i <= |headers|
      invariant r == AddHeaders(columns, headers[..i])
    {
      AddHeadersSnoc(columns, headers[..i], headers[i]);
      assert headers[..i + 1] == headers[..i] + [headers[i]];
      if i > 2 {
        r := r[headers[i] := (i - 1) * 2];
      } else {
        r := r[headers[i] := i];
      }
      i := i + 1;
    }
    assert headers[..i] == headers;
  }

  /** The column loop of one web data row, adding one catalog line per
      known column of `keys` (`RowKeys` in `parse`) to the scratch source. */
  method FillRowInto(temp: KnownSource, columns: map<string, nat>, details: seq<string>, keys: seq<string>)
    returns (ok: bool)
    modifies temp
    ensures var r := FillRow(old(temp.Snapshot()), columns, details, keys);
            ok == r.Success? && (ok ==> temp.Snapshot() == r.value)
  {
    ghost var start := temp.Snapshot();
    var k := 0;
    while k < |keys|
      invariant 0 <= k <= |keys|
      invariant FillRow(start, columns, details, keys[..k]) == Success(temp.Snapshot())
    {
      assert keys[..k + 1][..k] == keys[..k];
      ok := FillColumnInto(temp, columns, details, keys[k]);
      if !ok {
        FillRowFailureSticks(start, columns, details, keys, k + 1);
        return;
      }
      k := k + 1;
    }
    assert keys[..k] == keys;
    ok := true;
  }

  /** One column of the row: the catalog line `RowLine` builds, added through
      `addParameter`, where the column is known. */
  method FillColumnInto(temp: KnownSource, columns: map<string, nat>, details: seq<string>, key: string)
    returns (ok: bool)
    modifies temp
    ensures var r := FillColumn(old(temp.Snapshot()), columns, details, key);
            ok == r.Success? && (ok ==> temp.Snapshot() == r.value)
  {
    if key !in columns {
      return true;
    }
    var line := RowLine(key, details, columns[key]);
    if line.Failure? {
      return false;
    }
    ok := temp.AddParameter(line.value);
  }

  /** The loop of `parse` over the web form's output. */
  method ScanWebCatalog(lines: seq<string>) returns (ok: bool, known: map<string, Record>, names: seq<string>)
    ensures ok == WebRun(lines).Success?
    ensures ok ==> known == WebRun(lines).value.known && names == WebRun(lines).value.names
  {
    var temp := new KnownSource(Unknown);
    var columns: map<string, nat> := map[];
    known, names := map[], [];
    var i := 0;
    while i < |lines|
      invariant 0 <= i <= |lines|
      invariant WebRun(lines[..i]) == Success(Scan(temp.Snapshot(), known, names, columns))
    {
      var line := lines[i];
      assert lines[..i + 1][..i] == lines[..i];
      if |line| == 0 {
        WebFailureSticks(lines, i + 1);
        return false, known, names;
      }
      if line[0] == '-' {
      } else if line[0] == ' ' || line[0] == '\n' || line[0] == '\r' {
      } else if line[0] == '#' {
        columns := AddHeaderColumns(columns, Tokens(line));
      } else {
        var filled := FillRowInto(temp, columns, Tokens(line), RowKeys);
        if !filled {
          WebFailureSticks(lines, i + 1);
          return false, known, names;
        }
        if temp.name !in known {
          names := names + [temp.name];
        }
        known := known[temp.name := temp.Snapshot()];
        temp.parameters := map[];
        temp.sortKey := 0;
        temp.name := Unknown;
      }
      i := i + 1;
    }
    assert lines[..i] == lines;
    ok := true;
  }

  /** The index loop of `parse` over the names in ascending order of sort
      key: each source stored under its name, and each name at its position. */
  method OrderSources(known: map<string, Record>, sorted: seq<string>) returns (sources: map<string, Record>, access: seq<string>)
    requires forall i :: 0 <= i < |sorted| ==> sorted[i] in known
    requires forall n :: n in known ==> n in sorted
    ensures sources == known && access == sorted
  {
    sources, access := map[], [];
    var index := 0;
    while index < |sorted|
      invariant 0 <= index <= |sorted|
      invariant access == sorted[..index]
      invariant forall n :: n in sources <==> n in access
      invariant forall n :: n in sources ==> n in known && sources[n] == known[n]
    {
      var name := sorted[index];
      PrefixGrows(sorted, index);
      sources := sources[name := known[name]];
      access := access + [name];
      index := index + 1;
    }
    assert access == sorted;
  }

  lemma PrefixGrows(s: seq<string>, i: nat)
    requires i < |s|
    ensures s[..i + 1] == s[..i] + [s[i]]
  {
  }

  /** The sorted names are exactly the stored ones. */
  lemma SortedNamesKnown(names: seq<string>, known: map<string, Record>)
    requires forall n :: n in known <==> n in names
    ensures var sorted := SortNames(names, known);
            (forall i :: 0 <= i < |sorted| ==> sorted[i] in known) && forall n :: n in known ==> n in sorted
  {
    var sorted := SortNames(names, known);
    forall i | 0 <= i < |sorted| ensures sorted[i] in known {
      assert sorted[i] in multiset(names);
    }
    forall n | n in known ensures n in sorted {
      assert n in multiset(sorted);
    }
  }

  /** The scan of `parse`, in the format the first line names; a file in
      neither format yields nothing. */
  method ScanCatalog(lines: seq<string>) returns (ok: bool, known: map<string, Record>, names: seq<string>)
    ensures ok == Scanned(lines).Success?
    ensures ok ==> known == Scanned(lines).value.known && names == Scanned(lines).value.names
  {
    if IsCatalogueFile(lines) {
      ok, known, names := ScanPlainCatalog(lines);
    } else if IsCatalogueWebOutput(lines) {
      ok, known, names := ScanWebCatalog(lines);
    } else {
      ok, known, names := true, map[], [];
    }
  }

  /** A scan that committed a source parses to its index, which is ordered
      and as long as the scan has sources. */
  lemma ScanIndexes(lines: seq<string>)
    requires Scanned(lines).Success? && |Scanned(lines).value.known| >= 1
    ensures var scan := Scanned(lines).value;
            && Parse(lines) == Success(Some(Index(scan)))
            && Ordered(Index(scan)) && |Index(scan).access| == |scan.known|
            && (forall n :: n in scan.known <==> n in scan.names)
            && Index(scan) == Catalog(scan.known, SortNames(scan.names, scan.known))
  {
    ScannedConsistent(lines);
    IndexOrdered(Scanned(lines).value);
  }

  /** The counting loop at the end of `parse`: one per indexed name. */
  method CountEntries(access: seq<string>) returns (count: nat)
    ensures count == |access|
  {
    count := 0;
    var i := 0;
    while i < |access|
      invariant 0 <= i <= |access| && count == i
    {
      count := count + 1;
      i := i + 1;
    }
  }

  // ---------------------------------------------------------------------
  // The matcher object

  class KnownSourceDB {
    /** `accuracy` (also the DM percentage), `radius` and `searchPadding`,
        with `findAngularSep` as a parameter. */
    const config: Config
    var possibleMatches: int
    var knownSourceCount: int
    var naiveSearch: bool
    /** `orderedSourcesDict` and `orderedAccess`; before the first
        successful parse both are empty, standing for "not yet set". */
    var orderedSources: map<string, Record>
    var orderedAccess: seq<string>
    /** The records `recordPossibleMatch` wrote, in order. */
    var matches: seq<MatchRecord>

    function State(): Session
      reads this
    {
      Session(orderedSources, orderedAccess, naiveSearch, possibleMatches, matches)
    }

    /** The count is the number of indexed sources, and the index is ordered. */
    ghost predicate Valid()
      reads this
    {
      knownSourceCount == |orderedAccess| && Ordered(Catalog(orderedSources, orderedAccess))
    }

    /** `__init__`: no matches yet, no index, naive search off. */
    constructor(config: Config)
      ensures this.config == config && Valid()
      ensures State() == Session(map[], [], false, 0, []) && knownSourceCount == 0
    {
      this.config := config;
      possibleMatches := 0;
      knownSourceCount := 0;
      naiveSearch := false;
      orderedSources := map[];
      orderedAccess := [];
      matches := [];
    }

    /** `parse` over the catalog's lines. `ok` is false where Python raises,
        and then nothing has changed; `parsed` is its return value. A file
        that yields sources replaces the index and the count. */
    method Parse(lines: seq<string>) returns (ok: bool, parsed: bool)
      modifies this`orderedSources, this`orderedAccess, this`knownSourceCount
      ensures ok == CatalogFormat.Parse(lines).Success?
      ensures ok ==> parsed == CatalogFormat.Parse(lines).value.Some?
      ensures !parsed ==> State() == old(State()) && knownSourceCount == old(knownSourceCount)
      ensures parsed ==> ok && CatalogFormat.Parse(lines).value.Some? &&
                         var c := CatalogFormat.Parse(lines).value.value;
                         orderedSources == c.sources && orderedAccess == c.access
                         && knownSourceCount == |c.access| > 0
                         && naiveSearch == old(naiveSearch) && possibleMatches == old(possibleMatches)
                         && matches == old(matches)
      ensures old(Valid()) ==> Valid()
    {
      var known, names;
      ok, known, names := ScanCatalog(lines);
      if !ok {
        return false, false;
      }
      if |known| < 1 {
        return true, false;
      }
      IndexSources(lines, known, names);
      parsed := true;
    }

    /** The indexing half of `parse`, once the scan committed a source: the
        index is replaced by the sorted one and the count by its length. */
    method IndexSources(ghost lines: seq<string>, known: map<string, Record>, names: seq<string>)
      requires Scanned(lines).Success? && |known| >= 1
      requires known == Scanned(lines).value.known && names == Scanned(lines).value.names
      modifies this`orderedSources, this`orderedAccess, this`knownSourceCount
      ensures var c := Index(Scanned(lines).value);
              orderedSources == c.sources && orderedAccess == c.access && knownSourceCount == |c.access| > 0
      ensures Valid()
    {
      ScanIndexes(lines);
      SortedNamesKnown(names, known);
      var sources, access := OrderSources(known, SortNames(names, known));
      var count := CountEntries(access);
      orderedSources, orderedAccess, knownSourceCount := sources, access, count;
    }

    /** `match`: a candidate without RAJ switches the naive search on for
        good. The naive search compares every entry; the indexed one
        bisects to a seed and, when the seed's key is inside the band,
        compares it and then runs right and left. Matching before any
        catalog was indexed raises (the index attributes do not exist
        yet). Afterwards the candidate object is cleared. */
    method Match(candidate: KnownSource) returns (ok: bool)
      requires Valid()
      modifies this, candidate
      ensures var r := MatchCandidate(config, old(State()), old(candidate.Snapshot()));
              ok == r.Success? && (ok ==> State() == r.value && Valid() && candidate.Snapshot() == Blank(Unknown))
    {
      ghost var cand := candidate.Snapshot();
      if "RAJ" !in candidate.parameters {
        naiveSearch := true;
      }
      ghost var s1 := State();
      if knownSourceCount == 0 {
        return false;
      }
      if naiveSearch {
        ok := CompareEveryEntry(candidate);
        if !ok {
          return;
        }
      } else {
        ok := IndexedSearch(candidate);
        if !ok {
          return;
        }
      }
      candidate.parameters := map[];
      candidate.sortKey := 0;
      candidate.name := Unknown;
      ok := true;
    }

    /** The indexed search of `match`: bisect to a seed and, when its key is
        inside the band, compare it and then run right and left from it. */
    method IndexedSearch(candidate: KnownSource) returns (ok: bool)
      requires Valid() && knownSourceCount > 0
      modifies this`orderedSources, this`possibleMatches, this`matches
      ensures var visits := Visits(SessionKeys(old(State())), false, candidate.sortKey, Padding(config));
              var r := CompareEach(config, candidate.Snapshot(), old(State()), visits);
              ok == r.Success? && (ok ==> State() == r.value && Valid())
    {
      ghost var s, cand := State(), candidate.Snapshot();
      var keys := Keys(orderedAccess, orderedSources);
      var seed := DivideAndConquerSearch(keys, 0, knownSourceCount, candidate.sortKey);
      var key := orderedAccess[seed];
      var knownSource := orderedSources[key];
      var padding := IntOf(config.padding);
      assert keys == SessionKeys(s) && seed == Seed(keys, cand.sortKey) && keys[seed] == knownSource.sortKey;
      if candidate.sortKey - padding <= knownSource.sortKey <= candidate.sortKey + padding {
        IndexedInOrder(config, cand, s, padding, seed);
        ok := SearchAroundSeed(candidate, seed, padding);
      } else {
        assert Visits(keys, false, cand.sortKey, padding) == [];
        ok := true;
      }
    }

    /** The band branch of the indexed search: the seed, then `compareRight`
        and `compareLeft` from it. */
    method SearchAroundSeed(candidate: KnownSource, seed: nat, padding: int) returns (ok: bool)
      requires Valid() && seed < knownSourceCount
      modifies this`orderedSources, this`possibleMatches, this`matches
      ensures var r := AroundSeed(config, candidate.Snapshot(), old(State()), padding, seed);
              ok == r.Success? && (ok ==> State() == r.value && Valid())
    {
      ghost var s, cand := State(), candidate.Snapshot();
      ok := CompareCandidateToKnownSources(candidate, orderedAccess[seed]);
      if !ok {
        return;
      }
      CompareAtKeepsOrder(config, cand, s, seed);
      ok := CompareRight(candidate, seed, padding);
      if !ok {
        return;
      }
      ok := CompareLeft(candidate, seed, padding);
    }

    /** The naive search of `match`: every entry, in index order. */
    method CompareEveryEntry(candidate: KnownSource) returns (ok: bool)
      requires Valid()
      modifies this`orderedSources, this`possibleMatches, this`matches
      ensures var r := CompareEach(config, candidate.Snapshot(), old(State()), Range(|orderedAccess|));
              ok == r.Success? && (ok ==> State() == r.value && Valid())
    {
      ghost var s, cand := State(), candidate.Snapshot();
      ghost var all := Range(knownSourceCount);
      var i := 0;
      while i < knownSourceCount
        invariant 0 <= i <= knownSourceCount && Valid() && candidate.Snapshot() == cand
        invariant InRange(all[i..], knownSourceCount)
        invariant CompareEach(config, cand, s, all) == CompareEach(config, cand, State(), all[i..])
      {
        ghost var si := State();
        EachStep(config, cand, si, i);
        ok := CompareCandidateToKnownSources(candidate, orderedAccess[i]);
        assert candidate.Snapshot() == cand;
        if !ok {
          return;
        }
        i := i + 1;
      }
      assert all[i..] == [];
      ok := true;
    }

    /** `recordPossibleMatch`: the counter goes up first; then the record is
        written, which raises where reading the candidate does. */
    method RecordPossibleMatch(candidate: KnownSource, catalogName: string, catalogPeriod: string, h: real,
                               catalogRA: string, catalogDEC: string, catalogDM: string,
                               theta: Option<real>, catalogSort: int) returns (ok: bool)
      requires h != 0.0
      modifies this`possibleMatches, this`matches
      ensures possibleMatches == old(possibleMatches) + 1
      ensures var m := RecordOf(candidate.Snapshot(), catalogName, catalogPeriod, h, catalogRA, catalogDEC,
                                catalogDM, theta, catalogSort);
              ok == m.Success? && (ok ==> matches == old(matches) + [m.value])
    {
      possibleMatches := possibleMatches + 1;
      var m := RecordOf(candidate.Snapshot(), catalogName, catalogPeriod, h, catalogRA, catalogDEC,
                        catalogDM, theta, catalogSort);
      if m.Failure? {
        return false;
      }
      matches := matches + [m.value];
      ok := true;
    }

    /** `compareCandidateToKnownSources` on the entry stored under `name`:
        the period is filled in from F0 where missing (on the stored entry
        itself), and then each harmonic that satisfies the search condition
        is recorded. */
    method CompareCandidateToKnownSources(candidate: KnownSource, name: string) returns (ok: bool)
      requires name in orderedSources
      modifies this`orderedSources, this`possibleMatches, this`matches
      ensures ok == CompareAt(config, candidate.Snapshot(), old(State()), name).Success?
      ensures ok ==> State() == CompareAt(config, candidate.Snapshot(), old(State()), name).value
    {
      ghost var cand, e0 := candidate.Snapshot(), orderedSources[name];
      ok := FillPeriodInPlace(name);
      if !ok {
        return;
      }
      var e := orderedSources[name];
      assert FillPeriod(e0) == Success(e);
      if "P0" !in e.parameters {
        assert CompareEntry(config, cand, e0) == Success(Compared(e, []));
        return true;
      }
      var read := ReadPair(config, candidate.Snapshot(), e);
      if read.Failure? {
        assert CompareEntry(config, cand, e0).Failure?;
        return false;
      }
      HarmonicsNonZero();
      ok := RecordHarmonics(candidate, e, read.value, Harmonics);
      ghost var found := HarmonicMatches(config, cand, e, read.value, Harmonics);
      assert ok ==> CompareEntry(config, cand, e0) == Success(Compared(e, found.value));
    }

    /** The period fill at the head of `compareCandidateToKnownSources`:
        an entry with F0 but no P0 gets `P0 = 1/F0` added, in place. */
    method FillPeriodInPlace(name: string) returns (ok: bool)
      requires name in orderedSources
      modifies this`orderedSources
      ensures var r := FillPeriod(old(orderedSources)[name]);
              ok == r.Success? && (ok ==> orderedSources == old(orderedSources)[name := r.value])
    {
      var e := orderedSources[name];
      if "P0" !in e.parameters && "F0" in e.parameters {
        var f0 := First(e, "F0");
        if f0.Failure? {
          return false;
        }
        var f := Float(f0.value);
        if f.Failure? {
          return false;
        }
        if f.value == 0.0 {
          return false;
        }
        var added := AddParameterTo(e, PeriodLine(1.0 / f.value));
        if added.Failure? {
          return false;
        }
        orderedSources := orderedSources[name := added.value];
      }
      ok := true;
    }

    /** The harmonic loop of `compareCandidateToKnownSources`: each harmonic
        in `hs` whose search condition holds is recorded, in order. */
    method RecordHarmonics(candidate: KnownSource, e: Record, rd: Reading, hs: seq<real>) returns (ok: bool)
      requires NonZero(hs)
      modifies this`possibleMatches, this`matches
      ensures var r := HarmonicMatches(config, candidate.Snapshot(), e, rd, hs);
              ok == r.Success?
              && (ok ==> matches == old(matches) + r.value && possibleMatches == old(possibleMatches) + |r.value|)
    {
      ghost var cand := candidate.Snapshot();
      var k := 0;
      while k < |hs|
        invariant 0 <= k <= |hs|
        invariant HarmonicMatches(config, cand, e, rd, hs[..k]).Success?
        invariant var found := HarmonicMatches(config, cand, e, rd, hs[..k]).value;
                  matches == old(matches) + found && possibleMatches == old(possibleMatches) + |found|
      {
        var h := hs[k];
        assert hs[..k + 1][..k] == hs[..k];
        if rd.catPeriod != "*" {
          var accept := Accepts(config, rd, h);
          if accept.Failure? {
            HarmonicFailureSticks(config, cand, e, rd, hs, k + 1);
            return false;
          }
          if accept.value {
            ok := RecordPossibleMatch(candidate, e.name, rd.catPeriod, h, rd.catRA, rd.catDEC, rd.catDM,
                                      Separation(config, rd), e.sortKey);
            if !ok {
              HarmonicFailureSticks(config, cand, e, rd, hs, k + 1);
              return;
            }
          }
        }
        k := k + 1;
      }
      assert hs[..k] == hs;
      ok := true;
    }

    /** `compareRight`: compare the next entry to the right while it is
        inside the index and its key is inside the band. */
    method CompareRight(candidate: KnownSource, index: int, padding: int) returns (ok: bool)
      requires Valid()
      modifies this`orderedSources, this`possibleMatches, this`matches
      ensures ok == RightOf(config, candidate.Snapshot(), old(State()), padding, index).Success?
      ensures ok ==> State() == RightOf(config, candidate.Snapshot(), old(State()), padding, index).value && Valid()
      decreases |orderedAccess| - index, 1
    {
      ghost var s := State();
      var next := index + 1;
      var inBand := false;
      if next < knownSourceCount && next > -1 {
        var knownSource := orderedSources[orderedAccess[next]];
        assert SessionKeys(s)[next] == knownSource.sortKey;
        inBand := candidate.sortKey - padding <= knownSource.sortKey <= candidate.sortKey + padding;
      }
      if !inBand {
        RightStop(config, candidate.Snapshot(), s, padding, index);
        return true;
      }
      ok := CompareRightFrom(candidate, index, padding);
    }

    /** The in-band step of `compareRight`: compare the entry at `index + 1`,
        then carry on from it. */
    method CompareRightFrom(candidate: KnownSource, index: int, padding: int) returns (ok: bool)
      requires Valid() && -1 < index + 1 < |orderedAccess|
      requires InBand(candidate.sortKey, padding, SessionKeys(State())[index + 1])
      modifies this`orderedSources, this`possibleMatches, this`matches
      ensures ok == RightOf(config, candidate.Snapshot(), old(State()), padding, index).Success?
      ensures ok ==> State() == RightOf(config, candidate.Snapshot(), old(State()), padding, index).value && Valid()
      decreases |orderedAccess| - index, 0
    {
      ghost var s, cand := State(), candidate.Snapshot();
      ok := CompareCandidateToKnownSources(candidate, orderedAccess[index + 1]);
      if !ok {
        RightHalts(config, cand, s, padding, index);
        return;
      }
      ghost var mid := State();
      RightOn(config, cand, s, padding, index, mid);
      ok := CompareRight(candidate, index + 1, padding);
      assert candidate.Snapshot() == cand;
    }

    /** `compareLeft`: the mirror image of `compareRight`. */
    method CompareLeft(candidate: KnownSource, index: int, padding: int) returns (ok: bool)
      requires Valid()
      modifies this`orderedSources, this`possibleMatches, this`matches
      ensures ok == LeftOf(config, candidate.Snapshot(), old(State()), padding, index).Success?
      ensures ok ==> State() == LeftOf(config, candidate.Snapshot(), old(State()), padding, index).value && Valid()
      decreases index, 1
    {
      ghost var s := State();
      var next := index - 1;
      var inBand := false;
      if next < knownSourceCount && next > -1 {
        var knownSource := orderedSources[orderedAccess[next]];
        assert SessionKeys(s)[next] == knownSource.sortKey;
        inBand := candidate.sortKey - padding <= knownSource.sortKey <= candidate.sortKey + padding;
      }
      if !inBand {
        LeftStop(config, candidate.Snapshot(), s, padding, index);
        return true;
      }
      ok := CompareLeftFrom(candidate, index, padding);
    }

    /** The in-band step of `compareLeft`: compare the entry at `index - 1`,
        then carry on from it. */
    method CompareLeftFrom(candidate: KnownSource, index: int, padding: int) returns (ok: bool)
      requires Valid() && 0 < index <= |orderedAccess|
      requires InBand(candidate.sortKey, padding, SessionKeys(State())[index - 1])
      modifies this`orderedSources, this`possibleMatches, this`matches
      ensures ok == LeftOf(config, candidate.Snapshot(), old(State()), padding, index).Success?
      ensures ok ==> State() == LeftOf(config, candidate.Snapshot(), old(State()), padding, index).value && Valid()
      decreases index, 0
    {
      ghost var s, cand := State(), candidate.Snapshot();
      ok := CompareCandidateToKnownSources(candidate, orderedAccess[index - 1]);
      if !ok {
        LeftHalts(config, cand, s, padding, index);
        return;
      }
      ghost var mid := State();
      LeftOn(config, cand, s, padding, index, mid);
      ok := CompareLeft(candidate, index - 1, padding);
      assert candidate.Snapshot() == cand;
    }
  }
}

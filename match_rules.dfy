/** The matching rules of `KnownSourceDB`, as values: the bisection that
    seeds the search, the outward runs inside the padding band, the
    comparison of a candidate with one catalog entry over the period
    harmonics, and the record each possible match produces. The in-place
    methods that follow these rules are in `KnownSourceCatalog`. */
module MatchRules {
  import opened Wrappers
  import opened Text
  import opened Numbers
  import opened KnownSourceRecord
  import opened CatalogFormat

  // ---------------------------------------------------------------------
  // Settings

  /** The matcher's settings: `accuracy` is the percentage used for both the
      period and the DM window (the DM percentage is read from the same
      setting), `radius` the angular limit in degrees, `padding` the search
      band. `separation` stands for `findAngularSep`, whose trigonometry is
      not modelled. */
  datatype Config = Config(accuracy: real, radius: real, padding: real,
                           separation: (string, string, string, string) -> real)

  /** The fractions of the catalog period a candidate period is compared with. */
  const Harmonics: seq<real> := [1.0, 0.5, 0.25, 0.125, 0.0625]

  /** Python's `int()` of a float: truncation toward zero. */
  function IntOf(x: real): (n: int)
    ensures x >= 0.0 ==> n as real <= x < n as real + 1.0
    ensures x < 0.0 ==> n as real - 1.0 < x <= n as real
  {
    if x >= 0.0 then x.Floor else -((-x).Floor)
  }

  /** The half-width of the search band around the candidate's sort key. */
  function Padding(cfg: Config): int {
    IntOf(cfg.padding)
  }

  /** `cand - pad <= key <= cand + pad`. */
  predicate InBand(cs: int, pad: int, key: int) {
    cs - pad <= key <= cs + pad
  }

  // ---------------------------------------------------------------------
  // divideAndConquerSearch

  /** `int(math.ceil((end + start) / 2.0))`. */
  function Midpoint(start: nat, end: nat): (m: nat)
    ensures (m as real) - 1.0 < (start + end) as real / 2.0 <= m as real
  {
    var m := (start + end + 1) / 2;
    assert 2 * m == start + end || 2 * m == start + end + 1;
    m
  }

  /** The recursive bisection over the ascending keys: a window of two
      returns its second index and a window of one its only index without
      looking at the keys; otherwise the midpoint's key sends the search
      left, right, or returns the midpoint on an exact hit. */
  function DivideAndConquerSearch(keys: seq<int>, start: nat, end: nat, sort: int): (r: nat)
    requires start < end <= |keys|
    ensures start <= r < end
    ensures end - start > 2 && keys[Midpoint(start, end)] == sort ==> r == Midpoint(start, end)
    decreases end - start
  {
    if end - start == 2 then start + 1
    else if end - start == 1 then start
    else
      var mid := Midpoint(start, end);
      if sort < keys[mid] then DivideAndConquerSearch(keys, start, mid, sort)
      else if sort > keys[mid] then DivideAndConquerSearch(keys, mid, end, sort)
      else mid
  }

  /** On ascending keys, the seed sits where `sort` belongs: every key
      strictly between index 0 and the seed is at most `sort`, every key
      after the seed at least `sort`. Index 0 is the exception, because a
      window of two returns its second index unexamined. */
  lemma {:induction false} SeedBracket(keys: seq<int>, start: nat, end: nat, sort: int)
    requires start < end <= |keys| && Ascending(keys)
    requires start == 0 || keys[start] < sort
    requires end == |keys| || keys[end] > sort
    ensures var r := DivideAndConquerSearch(keys, start, end, sort);
            (forall i :: 0 < i < r ==> keys[i] <= sort)
            && (forall i :: r < i < |keys| ==> keys[i] >= sort)
    decreases end - start
  {
    if end - start > 2 {
      var mid := Midpoint(start, end);
      if sort < keys[mid] {
        SeedBracket(keys, start, mid, sort);
      } else if sort > keys[mid] {
        SeedBracket(keys, mid, end, sort);
      }
    }
  }

  /** The seed of the whole index. */
  function Seed(keys: seq<int>, sort: int): (r: nat)
    requires |keys| > 0
    ensures r < |keys|
  {
    DivideAndConquerSearch(keys, 0, |keys|, sort)
  }

  lemma SeedNearSort(keys: seq<int>, sort: int)
    requires |keys| > 0 && Ascending(keys)
    ensures forall i :: 0 < i < Seed(keys, sort) ==> keys[i] <= sort
    ensures forall i :: Seed(keys, sort) < i < |keys| ==> keys[i] >= sort
  {
    SeedBracket(keys, 0, |keys|, sort);
  }

  // ---------------------------------------------------------------------
  // compareRight and compareLeft, as the indices they visit

  /** The indices `compareRight` compares from `index`: it moves right while
      the next index is inside `(-1, n)` and its key is in the band. */
  function RightRun(keys: seq<int>, cs: int, pad: int, index: int): (r: seq<int>)
    ensures forall m :: 0 <= m < |r| ==> r[m] == index + 1 + m && 0 <= r[m] < |keys| && InBand(cs, pad, keys[r[m]])
    ensures var next := index + 1 + |r|; -1 < next < |keys| ==> !InBand(cs, pad, keys[next])
    decreases |keys| - index
  {
    if -1 < index + 1 < |keys| && InBand(cs, pad, keys[index + 1]) then [index + 1] + RightRun(keys, cs, pad, index + 1)
    else []
  }

  /** The indices `compareLeft` compares from `index`: it moves left while
      the previous index is inside `(-1, n)` and its key is in the band. */
  function LeftRun(keys: seq<int>, cs: int, pad: int, index: int): (r: seq<int>)
    ensures forall m :: 0 <= m < |r| ==> r[m] == index - 1 - m && 0 <= r[m] < |keys| && InBand(cs, pad, keys[r[m]])
    ensures var next := index - 1 - |r|; -1 < next < |keys| ==> !InBand(cs, pad, keys[next])
    decreases if index < 0 then 0 else index
  {
    if -1 < index - 1 < |keys| && InBand(cs, pad, keys[index - 1]) then [index - 1] + LeftRun(keys, cs, pad, index - 1)
    else []
  }

  function Range(n: nat): (r: seq<int>)
    ensures |r| == n && forall i :: 0 <= i < n ==> r[i] == i
  {
    seq(n, i => i)
  }

  /** The positions `match` compares, in order: every position in a naive
      search; otherwise nothing unless the seed's key is in the band, and
      then the seed, the run to its right and the run to its left. */
  function Visits(keys: seq<int>, naive: bool, cs: int, pad: int): (r: seq<int>)
    requires |keys| > 0
    ensures InRange(r, |keys|)
  {
    if naive then Range(|keys|)
    else
      var seed := Seed(keys, cs);
      if InBand(cs, pad, keys[seed]) then
        var right, left := RightRun(keys, cs, pad, seed), LeftRun(keys, cs, pad, seed);
        SeedAndRunInRange(seed, right, |keys|);
        InRangeAppend([seed] + right, left, |keys|);
        [seed] + right + left
      else []
  }

  lemma InRangeAppend(a: seq<int>, b: seq<int>, n: nat)
    requires InRange(a, n) && InRange(b, n)
    ensures InRange(a + b, n)
  {
    forall m | 0 <= m < |a + b| ensures 0 <= (a + b)[m] < n {
      if m < |a| {
        assert (a + b)[m] == a[m];
      } else {
        assert (a + b)[m] == b[m - |a|];
      }
    }
  }

  /** The seed followed by the two runs lists each position from `lo` to
      `hi` exactly once. */
  lemma RunsCover(seed: int, right: seq<int>, left: seq<int>)
    requires forall m :: 0 <= m < |right| ==> right[m] == seed + 1 + m
    requires forall m :: 0 <= m < |left| ==> left[m] == seed - 1 - m
    ensures var v := [seed] + right + left;
            (forall i :: seed - |left| <= i <= seed + |right| <==> i in v)
            && (forall a, b :: 0 <= a < b < |v| ==> v[a] != v[b])
  {
    var v := [seed] + right + left;
    var lo, hi := seed - |left|, seed + |right|;
    assert forall a :: 0 < a <= |right| ==> v[a] == seed + a;
    assert forall a :: |right| < a < |v| ==> v[a] == seed + |right| - a;
    forall i | lo <= i <= hi ensures i in v {
      if i == seed {
        assert v[0] == i;
      } else if i > seed {
        assert v[i - seed] == i;
      } else {
        assert v[|right| + seed - i] == i;
      }
    }
  }

  /** On ascending keys, a stretch of in-band positions bounded by
      out-of-band neighbours (or the ends) holds every in-band position. */
  lemma BandIsStretch(keys: seq<int>, cs: int, pad: int, lo: int, hi: int)
    requires Ascending(keys) && 0 <= lo <= hi < |keys|
    requires InBand(cs, pad, keys[lo]) && InBand(cs, pad, keys[hi])
    requires hi + 1 < |keys| ==> !InBand(cs, pad, keys[hi + 1])
    requires lo > 0 ==> !InBand(cs, pad, keys[lo - 1])
    ensures forall i :: 0 <= i < |keys| ==> (InBand(cs, pad, keys[i]) <==> lo <= i <= hi)
  {
    forall i | 0 <= i < |keys| ensures InBand(cs, pad, keys[i]) <==> lo <= i <= hi {
      if i > hi {
        assert keys[i] >= keys[hi + 1] >= keys[hi];
      } else if i < lo {
        assert keys[i] <= keys[lo - 1] <= keys[lo];
      } else {
        assert keys[lo] <= keys[i] <= keys[hi];
      }
    }
  }

  /** With ascending keys and a seed inside the band, the indexed search
      compares every position whose key is in the band, each exactly once,
      and no other position. */
  lemma IndexedSearchComplete(keys: seq<int>, cs: int, pad: int)
    requires |keys| > 0 && Ascending(keys)
    requires InBand(cs, pad, keys[Seed(keys, cs)])
    ensures var v := Visits(keys, false, cs, pad);
            (forall i :: 0 <= i < |keys| ==> (i in v <==> InBand(cs, pad, keys[i])))
            && (forall a, b :: 0 <= a < b < |v| ==> v[a] != v[b])
  {
    var seed := Seed(keys, cs);
    var right := RightRun(keys, cs, pad, seed);
    var left := LeftRun(keys, cs, pad, seed);
    RunsCover(seed, right, left);
    var lo, hi := seed - |left|, seed + |right|;
    assert InBand(cs, pad, keys[hi]) by {
      if |right| > 0 { assert right[|right| - 1] == hi; }
    }
    assert InBand(cs, pad, keys[lo]) by {
      if |left| > 0 { assert left[|left| - 1] == lo; }
    }
    BandIsStretch(keys, cs, pad, lo, hi);
  }

  /** The seed gate can skip a position inside the band: with keys 0 and
      100, a candidate key of 0 and a padding of 10, the window of two seeds
      the search at position 1, whose key is outside the band, so nothing is
      compared although position 0 is inside it. */
  lemma SeedGateMissesInBandEntry()
    ensures InBand(0, 10, [0, 100][0])
    ensures Seed([0, 100], 0) == 1
    ensures Visits([0, 100], false, 0, 10) == []
  {
  }

  // ---------------------------------------------------------------------
  // Reading parameters

  /** `getParameter(key)[0]`: indexing the None of an absent key raises
      TypeError, an empty list raises IndexError. */
  function First(r: Record, key: string): (v: Result<string>)
    ensures v.Success? <==> key in r.parameters && |r.parameters[key]| > 0
    ensures v.Success? ==> v.value == r.parameters[key][0]
    ensures key !in r.parameters ==> v == Failure(TypeError)
  {
    if key !in r.parameters then Failure(TypeError)
    else if |r.parameters[key]| == 0 then Failure(IndexError)
    else Success(r.parameters[key][0])
  }

  /** Python's `float(s)`, raising ValueError on text that is not a number. */
  function Float(s: string): (v: Result<real>)
    ensures v.Success? <==> ParseFloat(s).Some?
    ensures v.Success? ==> v.value == ParseFloat(s).value
  {
    if ParseFloat(s).Some? then Success(ParseFloat(s).value) else Failure(ValueError)
  }

  // ---------------------------------------------------------------------
  // The lazy P0 fill

  /** The line the fill adds: the period and two zero error fields. */
  function PeriodLine(p: real): string {
    "P0" + "    " + RenderReal(p) + "    " + "0" + "    " + "0"
  }

  /** An entry with F0 but no P0 gets `P0 = 1/F0` added to it, through
      `addParameter`; any other entry is left as it is. */
  function FillPeriod(e: Record): Result<Record> {
    if "P0" !in e.parameters && "F0" in e.parameters then
      var f0 :- First(e, "F0");
      var f :- Float(f0);
      if f == 0.0 then Failure(ZeroDivisionError)
      else AddParameterTo(e, PeriodLine(1.0 / f))
    else Success(e)
  }

  lemma PeriodLineTokens(p: real)
    ensures Tokens(PeriodLine(p)) == ["P0", RenderReal(p), "0", "0"]
  {
    RenderedWord(p);
    PeriodLineWords();
    FourTokens("P0", RenderReal(p), "0", "0");
  }

  lemma PeriodLineWords()
    ensures |"P0"| > 0 && NoSpace("P0") && |"0"| > 0 && NoSpace("0")
  {
    assert "P0"[0] == 'P' && "P0"[1] == '0' && "0"[0] == '0';
  }

  /** The fill stores `[str(1/F0), "0", "0"]` under P0, whose first value
      reads back as `1/F0` up to the kept decimals; the entry keeps its name
      and its place in the order, and stays settled. */
  lemma FillStoresPeriod(e: Record, f: real)
    requires Settled(e) && "P0" !in e.parameters
    requires First(e, "F0").Success? && Float(First(e, "F0").value) == Success(f) && f != 0.0
    ensures FillPeriod(e).Success?
    ensures var e' := FillPeriod(e).value;
            e'.name == e.name && e'.sortKey == e.sortKey && Settled(e')
            && GetParameter(e', "P0") == Some([RenderReal(1.0 / f), "0", "0"])
            && ParseFloat(e'.parameters["P0"][0]) == Some(Truncated(1.0 / f))
            && (forall k :: k != "P0" ==> GetParameter(e', k) == GetParameter(e, k))
  {
    var line := PeriodLine(1.0 / f);
    PeriodLineTokens(1.0 / f);
    AddOtherKeepsSortKey(e, line);
    AddSettles(e, line);
    AddStoresUnderKey(e, line);
    RenderRoundTrip(1.0 / f);
  }

  /** The filled entry is what later candidates see: filling again changes
      nothing. */
  lemma FillOnce(e: Record)
    requires FillPeriod(e).Success?
    requires "P0" in e.parameters || "F0" !in e.parameters || "P0" in FillPeriod(e).value.parameters
    ensures FillPeriod(FillPeriod(e).value) == FillPeriod(e)
  {
  }

  /** A catalog F0 that reads as 2 Hz (the text "2" does, by
      `TwoIsFloat`) becomes a stored P0 that reads back as 0.5 s. */
  lemma FillExample(e: Record)
    requires Settled(e) && "P0" !in e.parameters
    requires First(e, "F0").Success? && Float(First(e, "F0").value) == Success(2.0)
    ensures FillPeriod(e).Success? && "P0" in FillPeriod(e).value.parameters
    ensures |FillPeriod(e).value.parameters["P0"]| > 0
    ensures ParseFloat(FillPeriod(e).value.parameters["P0"][0]) == Some(0.5)
  {
    var f, p := 2.0, 0.5;
    HalfExact(f, p);
    FillReadsBack(e, f, p);
  }

  /** The stored period of an F0 of `f` reads back as `1/f` whenever
      writing `1/f` loses no digits. */
  lemma FillReadsBack(e: Record, f: real, p: real)
    requires Settled(e) && "P0" !in e.parameters
    requires First(e, "F0").Success? && Float(First(e, "F0").value) == Success(f) && f != 0.0
    requires 1.0 / f == p && Truncated(p) == p
    ensures FillPeriod(e).Success? && "P0" in FillPeriod(e).value.parameters
    ensures |FillPeriod(e).value.parameters["P0"]| > 0
    ensures ParseFloat(FillPeriod(e).value.parameters["P0"][0]) == Some(p)
  {
    FillStoresPeriod(e, f);
  }

  lemma TwoIsFloat()
    ensures Float("2") == Success(2.0)
  {
    assert AllDigits("2") && DigitsValue("2") == 2;
    DigitsAreFloat("2");
  }

  lemma HalfExact(f: real, p: real)
    requires f == 2.0 && p == 0.5
    ensures Truncated(p) == p && 1.0 / f == p
  {
    assert Pow10(Decimals) == 1000000000000;
    TruncatedExact(0.5, 500000000000);
  }

  // ---------------------------------------------------------------------
  // compareCandidateToKnownSources

  /** What the comparison reads before its harmonic loop: the catalog
      period, position and DM ("*" when the entry has none), the
      candidate's position, DM and period (0 when the period text holds a
      "*"), and the period tolerance `accuracy/100 * period`. */
  datatype Reading = Reading(catPeriod: string, catRA: string, catDEC: string, catDM: string,
                             candRA: string, candDEC: string, candDM: string, period: real, acc: real)

  /** `percent` per cent of `x`. */
  function Tolerance(percent: real, x: real): real {
    percent / 100.0 * x
  }

  /** The catalog side: P0, RAJ and DECJ must have a first value; a
      missing DM reads as "*". */
  datatype EntryFields = EntryFields(period: string, ra: string, dec: string, dm: string)

  function ReadEntry(e: Record): (r: Result<EntryFields>)
    ensures r.Success? ==> First(e, "P0") == Success(r.value.period)
                           && First(e, "RAJ") == Success(r.value.ra)
                           && First(e, "DECJ") == Success(r.value.dec)
                           && ("DM" !in e.parameters ==> r.value.dm == "*")
  {
    var period :- First(e, "P0");
    var ra :- First(e, "RAJ");
    var dec :- First(e, "DECJ");
    var dm :- if "DM" !in e.parameters then Success("*") else First(e, "DM");
    Success(EntryFields(period, ra, dec, dm))
  }

  /** The candidate side: RAJ, DECJ, P0 and DM must have a first value, and
      the period is 0 when its text holds a "*" and its float() otherwise. */
  datatype CandidateFields = CandidateFields(ra: string, dec: string, dm: string, period: real)

  function ReadCandidate(cand: Record): (r: Result<CandidateFields>)
    ensures r.Success? <==> First(cand, "RAJ").Success? && First(cand, "DECJ").Success?
                            && First(cand, "P0").Success? && First(cand, "DM").Success?
                            && ('*' in First(cand, "P0").value || Float(First(cand, "P0").value).Success?)
    ensures r.Success? ==> First(cand, "RAJ") == Success(r.value.ra)
                           && First(cand, "DECJ") == Success(r.value.dec)
                           && First(cand, "DM") == Success(r.value.dm)
                           && ('*' in First(cand, "P0").value ==> r.value.period == 0.0)
                           && ('*' !in First(cand, "P0").value ==> Float(First(cand, "P0").value) == Success(r.value.period))
  {
    var ra :- First(cand, "RAJ");
    var dec :- First(cand, "DECJ");
    var p :- First(cand, "P0");
    var dm :- First(cand, "DM");
    var period :- if '*' in p then Success(0.0) else Float(p);
    Success(CandidateFields(ra, dec, dm, period))
  }

  /** Both sides, catalog first, with the period tolerance. */
  function ReadPair(cfg: Config, cand: Record, e: Record): (r: Result<Reading>)
    ensures r.Success? ==> ReadEntry(e).Success? && ReadCandidate(cand).Success?
    ensures r.Success? ==> var ef, cf := ReadEntry(e).value, ReadCandidate(cand).value;
                           r.value == Reading(ef.period, ef.ra, ef.dec, ef.dm, cf.ra, cf.dec, cf.dm, cf.period,
                                              Tolerance(cfg.accuracy, cf.period))
  {
    var ef :- ReadEntry(e);
    var cf :- ReadCandidate(cand);
    Success(Reading(ef.period, ef.ra, ef.dec, ef.dm, cf.ra, cf.dec, cf.dm, cf.period,
                    Tolerance(cfg.accuracy, cf.period)))
  }

  /** The period window for harmonic `h` of the catalog period `cat`. */
  predicate InWindow(rd: Reading, cat: real, h: real) {
    cat * h - rd.acc < rd.period < cat * h + rd.acc
  }

  /** The DM gate applies when the candidate DM is given and non-zero, the
      percentage is non-zero and the catalog DM is known; it then narrows
      `cond` to a catalog DM within `percentage/100 * DM` of the candidate's.
      The catalog DM is converted only when `cond` still holds. */
  function DmCondition(cfg: Config, rd: Reading, cond: bool): Result<bool> {
    if rd.candDM == "*" then Success(cond)
    else
      var dm :- Float(rd.candDM);
      if dm == 0.0 || cfg.accuracy == 0.0 || rd.catDM == "unknown" || rd.catDM == "*" then Success(cond)
      else if !cond then Success(false)
      else
        var dmAcc := Tolerance(cfg.accuracy, dm);
        var catDM :- Float(rd.catDM);
        Success(dm - dmAcc < catDM < dm + dmAcc)
  }

  /** The angular separation, computed only when the candidate's RAJ and
      DECJ are both other than "00:00:00"; None stands for "unspecified". */
  function Separation(cfg: Config, rd: Reading): Option<real> {
    if rd.candRA != "00:00:00" && rd.candDEC != "00:00:00" then
      Some(cfg.separation(rd.candRA, rd.candDEC, rd.catRA, rd.catDEC))
    else None
  }

  /** The search condition for one harmonic: the period window, then the
      DM gate, then the radius gate. */
  function Accepts(cfg: Config, rd: Reading, h: real): Result<bool> {
    var cat :- Float(rd.catPeriod);
    var cond :- DmCondition(cfg, rd, InWindow(rd, cat, h));
    var theta := Separation(cfg, rd);
    Success(cond && (theta.None? || theta.value < cfg.radius))
  }

  /** A candidate period of 0, which is also what a "*" period becomes, has
      an empty window and is never accepted. */
  lemma WindowExcludesZero(cfg: Config, rd: Reading, h: real)
    requires rd.acc == Tolerance(cfg.accuracy, rd.period)
    requires Accepts(cfg, rd, h) == Success(true)
    ensures rd.period != 0.0
  {
  }

  /** Without the DM and radius gates, the condition is the period window
      alone. */
  lemma GatesOff(cfg: Config, rd: Reading, h: real)
    requires rd.candDM == "*" && rd.candRA == "00:00:00"
    requires Float(rd.catPeriod).Success?
    ensures Accepts(cfg, rd, h) == Success(InWindow(rd, Float(rd.catPeriod).value, h))
  {
  }

  /** With every number readable, a harmonic is accepted exactly when the
      period window holds, the catalog DM lies within `accuracy` per cent of
      the candidate DM whenever the DM gate is on, and the separation is
      below the radius whenever the candidate has a position. */
  lemma AcceptsExactly(cfg: Config, rd: Reading, h: real, cat: real, dm: real, catDM: real)
    requires Float(rd.catPeriod) == Success(cat)
    requires rd.candDM == "*" || Float(rd.candDM) == Success(dm)
    requires rd.catDM != "unknown" && rd.catDM != "*" ==> Float(rd.catDM) == Success(catDM)
    ensures Accepts(cfg, rd, h).Success?
    ensures Accepts(cfg, rd, h).value
            <==> InWindow(rd, cat, h)
                 && (rd.candDM != "*" && dm != 0.0 && cfg.accuracy != 0.0
                     && rd.catDM != "unknown" && rd.catDM != "*"
                     ==> dm - Tolerance(cfg.accuracy, dm) < catDM < dm + Tolerance(cfg.accuracy, dm))
                 && (rd.candRA != "00:00:00" && rd.candDEC != "00:00:00"
                     ==> cfg.separation(rd.candRA, rd.candDEC, rd.catRA, rd.catDEC) < cfg.radius)
  {
  }

  /** At 5 per cent, a catalog DM of 20 passes the DM gate of a candidate
      DM of 21 and fails that of a candidate DM of 25, whatever the period. */
  lemma DmGateExample(cfg: Config, rd: Reading, h: real)
    requires cfg.accuracy == 5.0 && Float(rd.catDM) == Success(20.0)
    requires rd.catDM != "unknown" && rd.catDM != "*"
    requires Float(rd.catPeriod).Success? && rd.candDM != "*"
    ensures Float(rd.candDM) == Success(21.0) && rd.candRA == "00:00:00"
            ==> Accepts(cfg, rd, h) == Success(InWindow(rd, Float(rd.catPeriod).value, h))
    ensures Float(rd.candDM) == Success(25.0) ==> Accepts(cfg, rd, h) == Success(false)
  {
    if Float(rd.candDM) == Success(21.0) {
      AcceptsExactly(cfg, rd, h, Float(rd.catPeriod).value, 21.0, 20.0);
    }
    if Float(rd.candDM) == Success(25.0) {
      AcceptsExactly(cfg, rd, h, Float(rd.catPeriod).value, 25.0, 20.0);
    }
  }

  /** A candidate at exactly half the catalog period is accepted at the
      harmonic 0.5 when the tolerance is positive and the gates are off. */
  lemma HalfPeriodAccepted(cfg: Config, rd: Reading, cat: real)
    requires rd.candDM == "*" && rd.candRA == "00:00:00"
    requires Float(rd.catPeriod) == Success(cat) && rd.period == cat * 0.5 && rd.acc > 0.0
    ensures Accepts(cfg, rd, 0.5) == Success(true)
  {
    GatesOff(cfg, rd, 0.5);
  }

  // ---------------------------------------------------------------------
  // recordPossibleMatch

  /** What a possible match writes to the text and CSV outputs. */
  datatype MatchRecord = MatchRecord(
    candidate: string, candidateRA: string, candidateDEC: string, candidatePeriod: string,
    candidateDM: string, snr: string, candidateSort: int,
    source: string, sourceRA: string, sourceDEC: string, sourcePeriod: string, sourceDM: string,
    sourceSort: int, harmonicNumber: real, harmonicPeriod: real, periodRatio: real,
    separation: Option<real>)

  /** The three numbers of a record: the harmonic number `1/h`, the
      harmonic period (catalog period times `h`) and its ratio to the
      candidate period. */
  function HarmonicFigures(cat: real, period: real, h: real): (t: (real, real, real))
    requires h != 0.0 && period != 0.0
    ensures t.0 * h == 1.0 && t.1 == cat * h && t.2 * period == t.1
  {
    (1.0 / h, cat * h, cat * h / period)
  }

  /** The record of a possible match: harmonic number `1/h`, harmonic
      period `P0*h` and its ratio to the candidate period; the SNR is "0.0"
      when the candidate has none. */
  function RecordOf(cand: Record, name: string, catPeriod: string, h: real, catRA: string,
                    catDEC: string, catDM: string, theta: Option<real>, sort: int): (r: Result<MatchRecord>)
    requires h != 0.0
    ensures r.Success? <==>
      && Float(catPeriod).Success? && First(cand, "P0").Success?
      && Float(cand.parameters["P0"][0]).Success? && Float(cand.parameters["P0"][0]).value != 0.0
      && ("SNR" in cand.parameters ==> |cand.parameters["SNR"]| > 0)
      && First(cand, "RAJ").Success? && First(cand, "DECJ").Success? && First(cand, "DM").Success?
    ensures r.Success? ==>
      (r.value.harmonicNumber, r.value.harmonicPeriod, r.value.periodRatio)
        == HarmonicFigures(Float(catPeriod).value, Float(cand.parameters["P0"][0]).value, h)
    ensures r.Success? ==>
      r.value.snr == if "SNR" in cand.parameters then cand.parameters["SNR"][0] else "0.0"
    ensures r.Success? ==>
      && r.value.candidate == cand.name && r.value.candidateSort == cand.sortKey
      && r.value.candidatePeriod == cand.parameters["P0"][0] && r.value.candidateRA == cand.parameters["RAJ"][0]
      && r.value.candidateDEC == cand.parameters["DECJ"][0] && r.value.candidateDM == cand.parameters["DM"][0]
    ensures r.Success? ==>
      && r.value.source == name && r.value.sourcePeriod == catPeriod && r.value.sourceRA == catRA
      && r.value.sourceDEC == catDEC && r.value.sourceDM == catDM && r.value.sourceSort == sort
      && r.value.separation == theta
  {
    var cat :- Float(catPeriod);
    var candPeriod :- First(cand, "P0");
    var period :- Float(candPeriod);
    if period == 0.0 then Failure(ZeroDivisionError)
    else
      var snr :- if "SNR" !in cand.parameters then Success("0.0") else First(cand, "SNR");
      var candRA :- First(cand, "RAJ");
      var candDEC :- First(cand, "DECJ");
      var candDM :- First(cand, "DM");
      var (n, hp, ratio) := HarmonicFigures(cat, period, h);
      Success(MatchRecord(cand.name, candRA, candDEC, candPeriod, candDM, snr, cand.sortKey,
                          name, catRA, catDEC, catPeriod, catDM, sort,
                          n, hp, ratio, theta))
  }

  /** One pass of the harmonic loop: a catalog period of "*" is skipped, a
      satisfied condition produces a record. */
  function HarmonicStep(cfg: Config, cand: Record, e: Record, rd: Reading, h: real): Result<Option<MatchRecord>>
    requires h != 0.0
  {
    if rd.catPeriod == "*" then Success(None)
    else
      var ok :- Accepts(cfg, rd, h);
      if !ok then Success(None)
      else
        var m :- RecordOf(cand, e.name, rd.catPeriod, h, rd.catRA, rd.catDEC, rd.catDM, Separation(cfg, rd), e.sortKey);
        Success(Some(m))
  }

  predicate NonZero(hs: seq<real>) {
    forall i :: 0 <= i < |hs| ==> hs[i] != 0.0
  }

  lemma HarmonicsNonZero()
    ensures NonZero(Harmonics)
  {
    forall i | 0 <= i < |Harmonics| ensures Harmonics[i] != 0.0 {
      if i == 0 {} else if i == 1 {} else if i == 2 {} else if i == 3 {} else {}
    }
  }

  /** The records of the harmonic loop over `hs`, in order. */
  function HarmonicMatches(cfg: Config, cand: Record, e: Record, rd: Reading, hs: seq<real>): Result<seq<MatchRecord>>
    requires NonZero(hs)
    decreases |hs|
  {
    if hs == [] then Success([])
    else
      var found :- HarmonicMatches(cfg, cand, e, rd, hs[..|hs| - 1]);
      var m :- HarmonicStep(cfg, cand, e, rd, hs[|hs| - 1]);
      Success(if m.Some? then found + [m.value] else found)
  }

  /** An exception in one pass of the harmonic loop ends it. */
  lemma {:induction false} HarmonicFailureSticks(cfg: Config, cand: Record, e: Record, rd: Reading, hs: seq<real>, k: nat)
    requires NonZero(hs) && k <= |hs| && HarmonicMatches(cfg, cand, e, rd, hs[..k]).Failure?
    ensures HarmonicMatches(cfg, cand, e, rd, hs).Failure?
    decreases |hs| - k
  {
    if k < |hs| {
      assert hs[..k + 1][..k] == hs[..k];
      HarmonicFailureSticks(cfg, cand, e, rd, hs, k + 1);
    } else {
      assert hs[..k] == hs;
    }
  }

  /** Independently of the loop: how many of the harmonics satisfy the
      search condition. */
  function Accepted(cfg: Config, rd: Reading, hs: seq<real>): nat
    decreases |hs|
  {
    if hs == [] || rd.catPeriod == "*" then 0
    else Accepted(cfg, rd, hs[..|hs| - 1]) + (if Accepts(cfg, rd, hs[|hs| - 1]) == Success(true) then 1 else 0)
  }

  /** A catalog period of 1 s at 0.5 per cent, gates off: a candidate period
      of 0.5003 s is accepted at the harmonic 1/2 alone. */
  lemma HarmonicExample(cfg: Config, rd: Reading)
    requires cfg.accuracy == 0.5 && rd.period == 0.5003 && rd.acc == Tolerance(cfg.accuracy, rd.period)
    requires rd.candDM == "*" && rd.candRA == "00:00:00"
    requires rd.catPeriod != "*" && Float(rd.catPeriod) == Success(1.0)
    ensures Accepted(cfg, rd, Harmonics) == 1
  {
    AcceptedGatesOff(cfg, rd, Harmonics);
    assert [1.0, 0.5, 0.25, 0.125, 0.0625][..4] == [1.0, 0.5, 0.25, 0.125];
    assert [1.0, 0.5, 0.25, 0.125][..3] == [1.0, 0.5, 0.25];
    assert [1.0, 0.5, 0.25][..2] == [1.0, 0.5];
    assert [1.0, 0.5][..1] == [1.0];
  }

  /** The same catalog entry accepts a candidate period of 0.51 s at no
      harmonic. */
  lemma HarmonicMissExample(cfg: Config, rd: Reading)
    requires cfg.accuracy == 0.5 && rd.period == 0.51 && rd.acc == Tolerance(cfg.accuracy, rd.period)
    requires rd.candDM == "*" && rd.candRA == "00:00:00"
    requires rd.catPeriod != "*" && Float(rd.catPeriod) == Success(1.0)
    ensures Accepted(cfg, rd, Harmonics) == 0
  {
    AcceptedGatesOff(cfg, rd, Harmonics);
    assert [1.0, 0.5, 0.25, 0.125, 0.0625][..4] == [1.0, 0.5, 0.25, 0.125];
    assert [1.0, 0.5, 0.25, 0.125][..3] == [1.0, 0.5, 0.25];
    assert [1.0, 0.5, 0.25][..2] == [1.0, 0.5];
    assert [1.0, 0.5][..1] == [1.0];
  }

  /** The number of harmonics at which the period window alone holds. */
  function InWindowCount(rd: Reading, cat: real, hs: seq<real>): nat
    decreases |hs|
  {
    if hs == [] then 0
    else InWindowCount(rd, cat, hs[..|hs| - 1]) + (if InWindow(rd, cat, hs[|hs| - 1]) then 1 else 0)
  }

  /** With the gates off, the accepted harmonics are those whose period
      window holds. */
  lemma {:induction false} AcceptedGatesOff(cfg: Config, rd: Reading, hs: seq<real>)
    requires rd.candDM == "*" && rd.candRA == "00:00:00"
    requires rd.catPeriod != "*" && Float(rd.catPeriod).Success?
    ensures Accepted(cfg, rd, hs) == InWindowCount(rd, Float(rd.catPeriod).value, hs)
    decreases |hs|
  {
    if hs != [] {
      AcceptedGatesOff(cfg, rd, hs[..|hs| - 1]);
      GatesOff(cfg, rd, hs[|hs| - 1]);
    }
  }

  /** Each satisfied harmonic produces exactly one record, so the counter
      grows by the number of satisfied harmonics. */
  lemma {:induction false} OneRecordPerAcceptedHarmonic(cfg: Config, cand: Record, e: Record, rd: Reading, hs: seq<real>)
    requires NonZero(hs) && HarmonicMatches(cfg, cand, e, rd, hs).Success?
    ensures |HarmonicMatches(cfg, cand, e, rd, hs).value| == Accepted(cfg, rd, hs)
    decreases |hs|
  {
    if hs != [] {
      OneRecordPerAcceptedHarmonic(cfg, cand, e, rd, hs[..|hs| - 1]);
    }
  }

  /** Once a harmonic is accepted, writing its record fails only on a
      candidate SNR list that is empty: the period it divides by is the
      accepted candidate period, which is never 0. */
  lemma AcceptedRecordWritten(cfg: Config, cand: Record, e: Record, h: real)
    requires h != 0.0 && ReadPair(cfg, cand, e).Success?
    requires var rd := ReadPair(cfg, cand, e).value; rd.catPeriod != "*" && Accepts(cfg, rd, h) == Success(true)
    ensures var rd := ReadPair(cfg, cand, e).value;
            HarmonicStep(cfg, cand, e, rd, h).Success?
            <==> ("SNR" !in cand.parameters || |cand.parameters["SNR"]| > 0)
  {
    var rd := ReadPair(cfg, cand, e).value;
    WindowExcludesZero(cfg, rd, h);
    assert Float(rd.catPeriod).Success?;
    var candPeriod := First(cand, "P0").value;
    assert '*' !in candPeriod;
    assert Float(candPeriod) == Success(rd.period);
    var theta := Separation(cfg, rd);
    var m := RecordOf(cand, e.name, rd.catPeriod, h, rd.catRA, rd.catDEC, rd.catDM, theta, e.sortKey);
    assert m.Success? <==> ("SNR" !in cand.parameters || |cand.parameters["SNR"]| > 0);
  }

  /** The outcome of comparing a candidate with one entry: the entry as it
      stands afterwards (with a filled-in period) and the records produced. */
  datatype Compared = Compared(entry: Record, found: seq<MatchRecord>)

  /** `compareCandidateToKnownSources`: fill the period if it can, skip an
      entry that still has none, otherwise run the harmonic loop. */
  function CompareEntry(cfg: Config, cand: Record, e: Record): (r: Result<Compared>)
    ensures r.Success? ==> FillPeriod(e).Success? && r.value.entry == FillPeriod(e).value
  {
    var filled :- FillPeriod(e);
    if "P0" !in filled.parameters then Success(Compared(filled, []))
    else
      var rd :- ReadPair(cfg, cand, filled);
      HarmonicsNonZero();
      var found :- HarmonicMatches(cfg, cand, filled, rd, Harmonics);
      Success(Compared(filled, found))
  }

  /** An entry with neither P0 nor F0 is skipped unchanged. */
  lemma NoPeriodSkipped(cfg: Config, cand: Record, e: Record)
    requires "P0" !in e.parameters && "F0" !in e.parameters
    ensures CompareEntry(cfg, cand, e) == Success(Compared(e, []))
  {
  }

  /** A candidate without RAJ cannot be compared with an entry that has a
      period: reading the candidate's position raises. */
  lemma NoPositionRaises(cfg: Config, cand: Record, e: Record)
    requires "RAJ" !in cand.parameters && "P0" in e.parameters
    ensures CompareEntry(cfg, cand, e).Failure?
  {
    assert FillPeriod(e) == Success(e);
  }

  /** Comparing keeps an entry's name and sort key and leaves it settled. */
  lemma CompareKeepsEntry(cfg: Config, cand: Record, e: Record)
    requires Settled(e) && CompareEntry(cfg, cand, e).Success?
    ensures var e' := CompareEntry(cfg, cand, e).value.entry;
            e'.name == e.name && e'.sortKey == e.sortKey && Settled(e')
  {
    FillKeepsEntry(e);
  }

  lemma FillKeepsEntry(e: Record)
    requires Settled(e) && FillPeriod(e).Success?
    ensures var e' := FillPeriod(e).value;
            e'.name == e.name && e'.sortKey == e.sortKey && Settled(e')
  {
    if "P0" !in e.parameters && "F0" in e.parameters {
      var f := Float(First(e, "F0").value).value;
      FillStoresPeriod(e, f);
    }
  }

  // ---------------------------------------------------------------------
  // A whole match

  /** The matcher's state: the ordered catalog, the sticky naive-search
      flag, the counter and the records written so far. */
  datatype Session = Session(sources: map<string, Record>, access: seq<string>, naive: bool,
                             possibleMatches: int, matches: seq<MatchRecord>)

  function SessionKeys(s: Session): seq<int> {
    Keys(s.access, s.sources)
  }

  /** Compare the candidate with the entry stored under `name`, storing the
      entry back and appending its records. */
  function CompareAt(cfg: Config, cand: Record, s: Session, name: string): (r: Result<Session>)
    requires name in s.sources
    ensures r.Success? ==> r.value.access == s.access && r.value.sources.Keys == s.sources.Keys
                           && r.value.naive == s.naive
                           && r.value.possibleMatches - s.possibleMatches == |r.value.matches| - |s.matches|
                           && s.matches <= r.value.matches
  {
    var c :- CompareEntry(cfg, cand, s.sources[name]);
    Success(s.(sources := s.sources[name := c.entry], possibleMatches := s.possibleMatches + |c.found|,
               matches := s.matches + c.found))
  }

  predicate InRange(visits: seq<int>, n: nat) {
    forall m :: 0 <= m < |visits| ==> 0 <= visits[m] < n
  }

  /** Compare the candidate with the entries at `visits`, in order. */
  function CompareEach(cfg: Config, cand: Record, s: Session, visits: seq<int>): (r: Result<Session>)
    requires AllKnown(s.access, s.sources) && InRange(visits, |s.access|)
    ensures r.Success? ==> r.value.access == s.access && r.value.sources.Keys == s.sources.Keys
                           && r.value.naive == s.naive
                           && r.value.possibleMatches - s.possibleMatches == |r.value.matches| - |s.matches|
                           && s.matches <= r.value.matches
    decreases |visits|
  {
    if visits == [] then Success(s)
    else
      var t :- CompareAt(cfg, cand, s, s.access[visits[0]]);
      CompareEach(cfg, cand, t, visits[1..])
  }

  /** Comparing over `a + b` compares over `a`, then over `b` from where
      that left off; an exception in `a` ends it. */
  lemma {:induction false} CompareEachConcat(cfg: Config, cand: Record, s: Session, a: seq<int>, b: seq<int>)
    requires AllKnown(s.access, s.sources) && InRange(a, |s.access|) && InRange(b, |s.access|)
    ensures InRange(a + b, |s.access|)
    ensures CompareEach(cfg, cand, s, a + b)
            == (var t := CompareEach(cfg, cand, s, a);
                if t.Failure? then t else CompareEach(cfg, cand, t.value, b))
    decreases |a|
  {
    if a == [] {
      assert a + b == b;
    } else {
      assert (a + b)[0] == a[0] && (a + b)[1..] == a[1..] + b;
      var t := CompareAt(cfg, cand, s, s.access[a[0]]);
      if t.Success? {
        CompareEachConcat(cfg, cand, t.value, a[1..], b);
      }
    }
  }

  /** What `compareRight` from `index` leaves: the entries of the right
      run compared in order. */
  function RightOf(cfg: Config, cand: Record, s: Session, pad: int, index: int): Result<Session>
    requires Ordered(Catalog(s.sources, s.access))
  {
    CompareEach(cfg, cand, s, RightRun(SessionKeys(s), cand.sortKey, pad, index))
  }

  /** What `compareLeft` from `index` leaves. */
  function LeftOf(cfg: Config, cand: Record, s: Session, pad: int, index: int): Result<Session>
    requires Ordered(Catalog(s.sources, s.access))
  {
    CompareEach(cfg, cand, s, LeftRun(SessionKeys(s), cand.sortKey, pad, index))
  }

  /** One step of `compareRight`: with the next key in the band, the run
      compares that entry and then runs on from it over the same keys. */
  lemma RightStep(cfg: Config, cand: Record, s: Session, pad: int, index: int)
    requires Ordered(Catalog(s.sources, s.access))
    requires -1 < index + 1 < |s.access| && InBand(cand.sortKey, pad, SessionKeys(s)[index + 1])
    ensures var t := CompareAt(cfg, cand, s, s.access[index + 1]);
            && (t.Success? ==> Ordered(Catalog(t.value.sources, t.value.access))
                               && SessionKeys(t.value) == SessionKeys(s))
            && RightOf(cfg, cand, s, pad, index)
               == if t.Failure? then t else RightOf(cfg, cand, t.value, pad, index + 1)
  {
    var next := index + 1;
    var run := RightRun(SessionKeys(s), cand.sortKey, pad, index);
    assert run[0] == next && run[1..] == RightRun(SessionKeys(s), cand.sortKey, pad, next);
    var t := CompareAt(cfg, cand, s, s.access[next]);
    if t.Success? {
      CompareAtKeepsOrder(cfg, cand, s, next);
    }
  }

  /** A right step whose comparison succeeded leaves the rest of the run to
      be done from the neighbour, over an index still in order. */
  lemma RightOn(cfg: Config, cand: Record, s: Session, pad: int, index: int, mid: Session)
    requires Ordered(Catalog(s.sources, s.access))
    requires -1 < index + 1 < |s.access| && InBand(cand.sortKey, pad, SessionKeys(s)[index + 1])
    requires CompareAt(cfg, cand, s, s.access[index + 1]) == Success(mid)
    ensures Ordered(Catalog(mid.sources, mid.access)) && mid.access == s.access
    ensures RightOf(cfg, cand, s, pad, index) == RightOf(cfg, cand, mid, pad, index + 1)
  {
    RightStep(cfg, cand, s, pad, index);
  }

  /** A right step whose comparison raised ends the run with that exception. */
  lemma RightHalts(cfg: Config, cand: Record, s: Session, pad: int, index: int)
    requires Ordered(Catalog(s.sources, s.access))
    requires -1 < index + 1 < |s.access| && InBand(cand.sortKey, pad, SessionKeys(s)[index + 1])
    requires CompareAt(cfg, cand, s, s.access[index + 1]).Failure?
    ensures RightOf(cfg, cand, s, pad, index).Failure?
  {
    RightStep(cfg, cand, s, pad, index);
  }

  /** Where the right neighbour is outside the index or the band, the run stops. */
  lemma RightStop(cfg: Config, cand: Record, s: Session, pad: int, index: int)
    requires Ordered(Catalog(s.sources, s.access))
    requires !(-1 < index + 1 < |s.access| && InBand(cand.sortKey, pad, SessionKeys(s)[index + 1]))
    ensures RightOf(cfg, cand, s, pad, index) == Success(s)
  {
  }

  /** One step of `compareLeft`, the mirror image of `RightStep`. */
  lemma LeftStep(cfg: Config, cand: Record, s: Session, pad: int, index: int)
    requires Ordered(Catalog(s.sources, s.access))
    requires -1 < index - 1 < |s.access| && InBand(cand.sortKey, pad, SessionKeys(s)[index - 1])
    ensures var t := CompareAt(cfg, cand, s, s.access[index - 1]);
            && (t.Success? ==> Ordered(Catalog(t.value.sources, t.value.access))
                               && SessionKeys(t.value) == SessionKeys(s))
            && LeftOf(cfg, cand, s, pad, index)
               == if t.Failure? then t else LeftOf(cfg, cand, t.value, pad, index - 1)
  {
    var next := index - 1;
    var run := LeftRun(SessionKeys(s), cand.sortKey, pad, index);
    assert run[0] == next && run[1..] == LeftRun(SessionKeys(s), cand.sortKey, pad, next);
    var t := CompareAt(cfg, cand, s, s.access[next]);
    if t.Success? {
      CompareAtKeepsOrder(cfg, cand, s, next);
    }
  }

  /** A left step whose comparison succeeded leaves the rest of the run to
      be done from the neighbour, over an index still in order. */
  lemma LeftOn(cfg: Config, cand: Record, s: Session, pad: int, index: int, mid: Session)
    requires Ordered(Catalog(s.sources, s.access))
    requires -1 < index - 1 < |s.access| && InBand(cand.sortKey, pad, SessionKeys(s)[index - 1])
    requires CompareAt(cfg, cand, s, s.access[index - 1]) == Success(mid)
    ensures Ordered(Catalog(mid.sources, mid.access)) && mid.access == s.access
    ensures LeftOf(cfg, cand, s, pad, index) == LeftOf(cfg, cand, mid, pad, index - 1)
  {
    LeftStep(cfg, cand, s, pad, index);
  }

  /** A left step whose comparison raised ends the run with that exception. */
  lemma LeftHalts(cfg: Config, cand: Record, s: Session, pad: int, index: int)
    requires Ordered(Catalog(s.sources, s.access))
    requires -1 < index - 1 < |s.access| && InBand(cand.sortKey, pad, SessionKeys(s)[index - 1])
    requires CompareAt(cfg, cand, s, s.access[index - 1]).Failure?
    ensures LeftOf(cfg, cand, s, pad, index).Failure?
  {
    LeftStep(cfg, cand, s, pad, index);
  }

  /** Where the left neighbour is outside the index or the band, the run stops. */
  lemma LeftStop(cfg: Config, cand: Record, s: Session, pad: int, index: int)
    requires Ordered(Catalog(s.sources, s.access))
    requires !(-1 < index - 1 < |s.access| && InBand(cand.sortKey, pad, SessionKeys(s)[index - 1]))
    ensures LeftOf(cfg, cand, s, pad, index) == Success(s)
  {
  }

  /** What the indexed search does once the seed's key is in the band:
      compare at the seed, then along the right run from there, then along
      the left run from where that left off. */
  function AroundSeed(cfg: Config, cand: Record, s: Session, pad: int, seed: nat): Result<Session>
    requires Ordered(Catalog(s.sources, s.access)) && seed < |s.access|
  {
    var t1 :- CompareAt(cfg, cand, s, s.access[seed]);
    CompareAtKeepsOrder(cfg, cand, s, seed);
    var t2 :- RightOf(cfg, cand, t1, pad, seed);
    CompareEachKeepsOrder(cfg, cand, t1, RightRun(SessionKeys(t1), cand.sortKey, pad, seed));
    LeftOf(cfg, cand, t2, pad, seed)
  }

  /** The indexed search compares the seed and its two runs in that order,
      over the keys the search started with. */
  lemma IndexedInOrder(cfg: Config, cand: Record, s: Session, pad: int, seed: nat)
    requires Ordered(Catalog(s.sources, s.access)) && seed < |s.access|
    ensures var keys := SessionKeys(s);
            var visits := [seed] + RightRun(keys, cand.sortKey, pad, seed) + LeftRun(keys, cand.sortKey, pad, seed);
            InRange(visits, |s.access|) && CompareEach(cfg, cand, s, visits) == AroundSeed(cfg, cand, s, pad, seed)
  {
    var keys := SessionKeys(s);
    var right := RightRun(keys, cand.sortKey, pad, seed);
    var left := LeftRun(keys, cand.sortKey, pad, seed);
    SeedThenRight(cfg, cand, s, pad, seed);
    CompareEachConcat(cfg, cand, s, [seed] + right, left);
    var t1 := CompareAt(cfg, cand, s, s.access[seed]);
    if t1.Success? && RightOf(cfg, cand, t1.value, pad, seed).Success? {
      CompareEachKeepsOrder(cfg, cand, t1.value, right);
    }
  }

  /** The seed and then the right run: compare at the seed, then run right
      from it over the keys, which the comparison left where they were. */
  lemma SeedThenRight(cfg: Config, cand: Record, s: Session, pad: int, seed: nat)
    requires Ordered(Catalog(s.sources, s.access)) && seed < |s.access|
    ensures var right := RightRun(SessionKeys(s), cand.sortKey, pad, seed);
            var t := CompareAt(cfg, cand, s, s.access[seed]);
            && InRange([seed] + right, |s.access|)
            && (t.Success? ==> Ordered(Catalog(t.value.sources, t.value.access))
                               && SessionKeys(t.value) == SessionKeys(s))
            && CompareEach(cfg, cand, s, [seed] + right)
               == if t.Failure? then t else RightOf(cfg, cand, t.value, pad, seed)
  {
    var right := RightRun(SessionKeys(s), cand.sortKey, pad, seed);
    SeedAndRunInRange(seed, right, |s.access|);
    CompareEachCons(cfg, cand, s, seed, right);
    if CompareAt(cfg, cand, s, s.access[seed]).Success? {
      CompareAtKeepsOrder(cfg, cand, s, seed);
    }
  }

  lemma SeedAndRunInRange(seed: nat, run: seq<int>, n: nat)
    requires seed < n && InRange(run, n)
    ensures InRange([seed] + run, n)
  {
    forall m | 0 <= m < |[seed] + run| ensures 0 <= ([seed] + run)[m] < n {
      if m > 0 {
        assert ([seed] + run)[m] == run[m - 1];
      }
    }
  }

  /** Comparing over `[i] + rest` compares at `i`, then over `rest`. */
  lemma CompareEachCons(cfg: Config, cand: Record, s: Session, i: int, rest: seq<int>)
    requires AllKnown(s.access, s.sources) && 0 <= i < |s.access|
    requires InRange(rest, |s.access|) && InRange([i] + rest, |s.access|)
    ensures var t := CompareAt(cfg, cand, s, s.access[i]);
            CompareEach(cfg, cand, s, [i] + rest) == if t.Failure? then t else CompareEach(cfg, cand, t.value, rest)
  {
    assert ([i] + rest)[0] == i && ([i] + rest)[1..] == rest;
  }

  /** One step of the naive search: comparing over the positions from `i`
      compares at `i`, then over those after it, on an index still ordered. */
  lemma EachStep(cfg: Config, cand: Record, s: Session, i: nat)
    requires Ordered(Catalog(s.sources, s.access)) && i < |s.access|
    ensures InRange(Range(|s.access|)[i..], |s.access|) && InRange(Range(|s.access|)[i + 1..], |s.access|)
    ensures var t := CompareAt(cfg, cand, s, s.access[i]);
            && (t.Success? ==> Ordered(Catalog(t.value.sources, t.value.access)))
            && CompareEach(cfg, cand, s, Range(|s.access|)[i..])
               == if t.Failure? then t else CompareEach(cfg, cand, t.value, Range(|s.access|)[i + 1..])
  {
    var all := Range(|s.access|);
    assert all[i..] == [i] + all[i + 1..];
    CompareEachCons(cfg, cand, s, i, all[i + 1..]);
    if CompareAt(cfg, cand, s, s.access[i]).Success? {
      CompareAtKeepsOrder(cfg, cand, s, i);
    }
  }

  /** `match` on the state `s`: a candidate without RAJ switches on the naive
      search for good; an index that was never built raises
      AttributeError; otherwise the positions `Visits` names are compared. */
  function MatchCandidate(cfg: Config, s: Session, cand: Record): Result<Session>
    requires AllKnown(s.access, s.sources)
  {
    var naive := s.naive || "RAJ" !in cand.parameters;
    if |s.access| == 0 then Failure(AttributeError)
    else
      var visits := Visits(SessionKeys(s), naive, cand.sortKey, Padding(cfg));
      CompareEach(cfg, cand, s.(naive := naive), visits)
  }

  /** Once set, the naive-search flag stays set, and a candidate without
      RAJ sets it; the counter always equals the records added. */
  lemma NaiveSticky(cfg: Config, s: Session, cand: Record)
    requires AllKnown(s.access, s.sources) && MatchCandidate(cfg, s, cand).Success?
    ensures var t := MatchCandidate(cfg, s, cand).value;
            (s.naive || "RAJ" !in cand.parameters ==> t.naive)
            && t.possibleMatches - s.possibleMatches == |t.matches| - |s.matches|
  {
  }

  /** Comparing at a position keeps the index ordered and every key where
      it was, so the later band checks read the keys the search started with. */
  lemma CompareAtKeepsOrder(cfg: Config, cand: Record, s: Session, i: int)
    requires Ordered(Catalog(s.sources, s.access)) && 0 <= i < |s.access|
    requires CompareAt(cfg, cand, s, s.access[i]).Success?
    ensures var t := CompareAt(cfg, cand, s, s.access[i]).value;
            Ordered(Catalog(t.sources, t.access)) && SessionKeys(t) == SessionKeys(s)
  {
    var name := s.access[i];
    var e := s.sources[name];
    CompareKeepsEntry(cfg, cand, e);
    var t := CompareAt(cfg, cand, s, s.access[i]).value;
    assert forall n :: n in t.sources ==> KeyOf(t.sources, n) == KeyOf(s.sources, n);
    assert SessionKeys(t) == SessionKeys(s);
  }

  lemma {:induction false} CompareEachKeepsOrder(cfg: Config, cand: Record, s: Session, visits: seq<int>)
    requires Ordered(Catalog(s.sources, s.access)) && InRange(visits, |s.access|)
    requires CompareEach(cfg, cand, s, visits).Success?
    ensures var t := CompareEach(cfg, cand, s, visits).value;
            Ordered(Catalog(t.sources, t.access)) && SessionKeys(t) == SessionKeys(s)
    decreases |visits|
  {
    if visits != [] {
      CompareAtKeepsOrder(cfg, cand, s, visits[0]);
      var t := CompareAt(cfg, cand, s, s.access[visits[0]]).value;
      CompareEachKeepsOrder(cfg, cand, t, visits[1..]);
    }
  }
}

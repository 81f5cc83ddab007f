/** A known radio source from the ATNF catalog (KnownSource.py): a map from
    parameter name to the list of sub-values that followed it on its catalog
    line, a primary name, and an integer sort key that sums the right
    ascension and the declination expressed in seconds. */
module KnownSourceRecord {
  import opened Wrappers
  import opened Text
  import opened Numbers

  /** The name a source has until a PSRJ or PSRB line names it. */
  const Unknown: string := "Unknown"

  /** The state of one known source, as a value. */
  datatype Record = Record(parameters: map<string, seq<string>>, name: string, sortKey: int)

  /** A source with no parameters and sort key 0. */
  function Blank(name: string): Record {
    Record(map[], name, 0)
  }

  // ---------------------------------------------------------------------
  // Lookups

  /** `getParameter`: the list stored under `key`, or None. */
  function GetParameter(r: Record, key: string): (v: Option<seq<string>>)
    ensures v.Some? <==> key in r.parameters
    ensures v.Some? ==> v.value == r.parameters[key]
  {
    if key in r.parameters then Some(r.parameters[key]) else None
  }

  /** `getParameterAtIndex`: element `index` of the list under `key`, with
      Python's indexing (a negative index counts from the end); None for an
      absent key and for an index outside the list. */
  function GetParameterAtIndex(r: Record, key: string, index: int): (v: Option<string>)
    ensures 0 <= index ==> (v.Some? <==> key in r.parameters && index < |r.parameters[key]|)
    ensures 0 <= index && v.Some? ==> v.value == r.parameters[key][index]
    ensures index < 0 ==> (v.Some? <==> key in r.parameters && -|r.parameters[key]| <= index)
    ensures index < 0 && v.Some? ==> v.value == r.parameters[key][|r.parameters[key]| + index]
    ensures key !in r.parameters ==> v == None
  {
    var list := GetParameter(r, key);
    if list.None? then None
    else if index < |list.value| then
      if 0 <= index then Some(list.value[index])
      else if -|list.value| <= index then Some(list.value[|list.value| + index])
      else None  // Python raises IndexError, which the lookup catches
    else None
  }

  /** A negative index `i - n` names the same element as `i`. */
  lemma NegativeIndexFromEnd(r: Record, key: string, i: int)
    requires key in r.parameters && 0 <= i < |r.parameters[key]|
    ensures GetParameterAtIndex(r, key, i - |r.parameters[key]|) == GetParameterAtIndex(r, key, i)
    ensures GetParameterAtIndex(r, key, i) == Some(r.parameters[key][i])
  {
  }

  // ---------------------------------------------------------------------
  // Coordinates

  /** `n` fields of "00". */
  function ZeroFields(n: nat): (z: seq<string>)
    ensures |z| == n && forall i :: 0 <= i < n ==> z[i] == "00"
  {
    if n == 0 then [] else ZeroFields(n - 1) + ["00"]
  }

  /** The RAJ/DECJ padding of `addParameter`: a value of one colon-separated
      field gets ":00:00", a value of two fields gets ":00", and a value of
      three or more fields is kept. */
  function Pad(v: string): (p: string)
    ensures StartsWith(p, v)
  {
    var fields := |Split(v, ':')|;
    if fields == 1 then v + ":00:00"
    else if fields == 2 then v + ":00"
    else v
  }

  lemma PadOneField(v: string)
    requires |Split(v, ':')| == 1
    ensures Split(Pad(v), ':') == Split(v, ':') + ["00", "00"]
  {
    var w := v + [':'] + "00";
    assert Pad(v) == v + ":00:00" == w + [':'] + "00";
    SplitSnoc(v, ':', "00");
    SplitSnoc(w, ':', "00");
    assert Split(v, ':') + ["00"] + ["00"] == Split(v, ':') + ["00", "00"];
  }

  lemma PadTwoFields(v: string)
    requires |Split(v, ':')| == 2
    ensures Split(Pad(v), ':') == Split(v, ':') + ["00"]
  {
    assert v + ":00" == v + [':'] + "00";
    SplitSnoc(v, ':', "00");
  }

  /** Padding appends "00" fields until there are three, and keeps the
      fields already there. */
  lemma PadFields(v: string)
    ensures var n := |Split(v, ':')|;
            Split(Pad(v), ':') == Split(v, ':') + ZeroFields(if n < 3 then 3 - n else 0)
  {
    var n := |Split(v, ':')|;
    if n == 1 {
      PadOneField(v);
    } else if n == 2 {
      PadTwoFields(v);
    }
  }

  /** Padding a padded value changes nothing. */
  lemma PadIdempotent(v: string)
    ensures Pad(Pad(v)) == Pad(v)
    ensures |Split(Pad(v), ':')| >= 3
  {
    PadFields(v);
  }

  /** `convert_RA_or_DEC_toInt`: `h*3600 + floor(m)*60 + floor(s)` for the
      text `h:m:s`, where every "+" is removed before `h` is read, and a
      missing minute or second field counts as 0. `int()` or `float()` on a
      field that is not a number raises ValueError. */
  function ToSeconds(coord: string): Result<int> {
    SecondsOfFields(Split(coord, ':'))
  }

  /** The value of the colon-separated fields of a coordinate. */
  function SecondsOfFields(fields: seq<string>): Result<int>
    requires |fields| > 0
  {
    var h := ParseInt(Replace(fields[0], "+", ""));
    if h.None? then Failure(ValueError)
    else
      var m := if |fields| > 1 then FloorOf(fields[1]) else Some(0);
      if m.None? then Failure(ValueError)
      else
        var s := if |fields| > 2 then FloorOf(fields[2]) else Some(0);
        if s.None? then Failure(ValueError)
        else Success(h.value * 3600 + m.value * 60 + s.value)
  }

  /** The value of a coordinate from the numbers its three fields read as. */
  lemma ToSecondsOfFields(coord: string, a: string, b: string, c: string, h: int, m: int, s: int)
    requires Split(coord, ':') == [a, b, c]
    requires ParseInt(Replace(a, "+", "")) == Some(h) && FloorOf(b) == Some(m) && FloorOf(c) == Some(s)
    ensures ToSeconds(coord) == Success(h * 3600 + m * 60 + s)
  {
    var f := Split(coord, ':');
    assert |f| == 3 && f[0] == a && f[1] == b && f[2] == c;
  }

  lemma ZeroField()
    ensures FloorOf("00") == Some(0)
  {
    DigitsAreFloat("00");
    assert DigitsValue("00") == 0 by {
      assert "00"[..1] == "0";
    }
  }

  /** A trailing field that reads as 0 adds nothing. */
  lemma ZeroFieldAddsNothing(f: seq<string>, z: string)
    requires 1 <= |f| <= 2 && FloorOf(z) == Some(0)
    ensures SecondsOfFields(f + [z]) == SecondsOfFields(f)
  {
    var g := f + [z];
    assert g[0] == f[0];
    assert ParseInt(Replace(g[0], "+", "")) == ParseInt(Replace(f[0], "+", ""));
    if |f| == 2 {
      assert g[1] == f[1] && g[2] == z;
      assert FloorOf(g[1]) == FloorOf(f[1]) && FloorOf(g[2]) == Some(0);
    } else {
      assert g[1] == z;
      assert FloorOf(g[1]) == Some(0);
    }
  }

  lemma PadOneKeepsSeconds(v: string)
    requires |Split(v, ':')| == 1
    ensures ToSeconds(Pad(v)) == ToSeconds(v)
  {
    PadOneField(v);
    ZeroField();
    var f := Split(v, ':');
    assert Split(Pad(v), ':') == (f + ["00"]) + ["00"];
    ZeroFieldAddsNothing(f, "00");
    ZeroFieldAddsNothing(f + ["00"], "00");
  }

  lemma PadTwoKeepsSeconds(v: string)
    requires |Split(v, ':')| == 2
    ensures ToSeconds(Pad(v)) == ToSeconds(v)
  {
    PadTwoFields(v);
    ZeroField();
    ZeroFieldAddsNothing(Split(v, ':'), "00");
  }

  /** The missing fields count as 0: padding does not change the value. */
  lemma PadKeepsSeconds(v: string)
    ensures ToSeconds(Pad(v)) == ToSeconds(v)
  {
    var n := |Split(v, ':')|;
    if n == 1 {
      PadOneKeepsSeconds(v);
    } else if n == 2 {
      PadTwoKeepsSeconds(v);
    }
  }

  lemma DigitsWithout(d: string, c: char)
    requires AllDigits(d) && !IsDigit(c)
    ensures c !in d
  {
    forall i | 0 <= i < |d| ensures d[i] != c { assert IsDigit(d[i]); }
  }

  lemma ParseIntDigits(d: string)
    requires |d| > 0 && AllDigits(d)
    ensures ParseInt(d) == Some(DigitsValue(d))
    ensures ParseInt("-" + d) == Some(-(DigitsValue(d) as int))
  {
    assert IsDigit(d[0]);
    assert ("-" + d)[1..] == d;
  }

  lemma FloorOfDigits(d: string)
    requires |d| > 0 && AllDigits(d)
    ensures FloorOf(d) == Some(DigitsValue(d))
  {
    DigitsAreFloat(d);
  }

  /** The fields of `a:b:c` when none of them holds a colon. */
  lemma ThreeFields(a: string, b: string, c: string)
    requires ':' !in a && ':' !in b && ':' !in c
    ensures Split(a + ":" + b + ":" + c, ':') == [a, b, c]
  {
    assert a + ":" + b + ":" + c == (a + [':'] + b) + [':'] + c;
    SplitSnoc(a + [':'] + b, ':', c);
    SplitSnoc(a, ':', b);
    SplitNoSeparator(a, ':');
  }

  /** `hh:mm:ss` in digits is worth `h*3600 + m*60 + s` for the numbers
      `h`, `m` and `s` the three digit runs spell. */
  lemma DigitsToSeconds(hh: string, mm: string, ss: string, h: nat, m: nat, s: nat)
    requires |hh| > 0 && |mm| > 0 && |ss| > 0
    requires AllDigits(hh) && AllDigits(mm) && AllDigits(ss)
    requires h == DigitsValue(hh) && m == DigitsValue(mm) && s == DigitsValue(ss)
    ensures ToSeconds(hh + ":" + mm + ":" + ss) == Success(h * 3600 + m * 60 + s)
  {
    DigitsWithout(hh, ':');
    DigitsWithout(mm, ':');
    DigitsWithout(ss, ':');
    ThreeFields(hh, mm, ss);
    DigitsWithout(hh, '+');
    ReplaceAbsent(hh, "+", "");
    ParseIntDigits(hh);
    FloorOfDigits(mm);
    FloorOfDigits(ss);
    ToSecondsOfFields(hh + ":" + mm + ":" + ss, hh, mm, ss, h, m, s);
  }

  /** A leading "+" on the hour field changes nothing. */
  lemma PlusIgnored(hh: string, mm: string, ss: string, h: nat, m: nat, s: nat)
    requires |hh| > 0 && |mm| > 0 && |ss| > 0
    requires AllDigits(hh) && AllDigits(mm) && AllDigits(ss)
    requires h == DigitsValue(hh) && m == DigitsValue(mm) && s == DigitsValue(ss)
    ensures ToSeconds("+" + hh + ":" + mm + ":" + ss) == Success(h * 3600 + m * 60 + s)
  {
    DigitsWithout(hh, ':');
    DigitsWithout(mm, ':');
    DigitsWithout(ss, ':');
    var ph := "+" + hh;
    assert ':' !in ph;
    assert "+" + hh + ":" + mm + ":" + ss == ph + ":" + mm + ":" + ss;
    ThreeFields(ph, mm, ss);
    DigitsWithout(hh, '+');
    ReplaceAbsent(hh, "+", "");
    assert Replace(ph, "+", "") == hh by {
      assert ph[..1] == "+";
      assert ph[1..] == hh;
    }
    ParseIntDigits(hh);
    FloorOfDigits(mm);
    FloorOfDigits(ss);
    ToSecondsOfFields(ph + ":" + mm + ":" + ss, ph, mm, ss, h, m, s);
  }

  /** Only "+" is stripped from the hour field: `-dd` reads as the negative
      hour `-d`, so in `-dd:mm:ss` the hour term is negative while the minutes
      and seconds still add (`HourField`). */
  lemma NegativeHourOnly(dd: string, d: nat)
    requires |dd| > 0 && AllDigits(dd) && d == DigitsValue(dd)
    ensures ':' !in "-" + dd
    ensures ParseInt(Replace("-" + dd, "+", "")) == Some(-(d as int))
  {
    DigitsWithout(dd, ':');
    DigitsWithout(dd, '+');
    var n := "-" + dd;
    assert n[0] == '-' && n[1..] == dd;
    assert '+' !in n;
    ReplaceAbsent(n, "+", "");
    ParseIntDigits(dd);
  }

  lemma MinuteSecondFields(mm: string, ss: string, m: nat, s: nat)
    requires |mm| > 0 && |ss| > 0 && AllDigits(mm) && AllDigits(ss)
    requires m == DigitsValue(mm) && s == DigitsValue(ss)
    ensures ':' !in mm && ':' !in ss
    ensures FloorOf(mm) == Some(m) && FloorOf(ss) == Some(s)
  {
    DigitsWithout(mm, ':');
    DigitsWithout(ss, ':');
    FloorOfDigits(mm);
    FloorOfDigits(ss);
  }

  /** Whatever the hour field, digit minutes and seconds add `m*60 + s` to
      `h*3600`, where `h` is what the hour field reads as once "+" is
      removed. */
  lemma HourField(hf: string, mm: string, ss: string, h: int, m: nat, s: nat)
    requires |mm| > 0 && |ss| > 0 && AllDigits(mm) && AllDigits(ss)
    requires m == DigitsValue(mm) && s == DigitsValue(ss)
    requires ':' !in hf && ParseInt(Replace(hf, "+", "")) == Some(h)
    ensures ToSeconds(hf + ":" + mm + ":" + ss) == Success(h * 3600 + m * 60 + s)
  {
    MinuteSecondFields(mm, ss, m, s);
    ThreeFields(hf, mm, ss);
    ToSecondsOfFields(hf + ":" + mm + ":" + ss, hf, mm, ss, h, m, s);
  }

  /** The value grows with the seconds field. */
  lemma MonotoneInSeconds(hm: string, s1: string, s2: string)
    requires |Split(hm, ':')| == 2 && ':' !in s1 && ':' !in s2
    requires ToSeconds(hm + ":" + s1).Success? && ToSeconds(hm + ":" + s2).Success?
    requires ParseFloat(s1).Some? && ParseFloat(s2).Some? && ParseFloat(s1).value <= ParseFloat(s2).value
    ensures ToSeconds(hm + ":" + s1).value <= ToSeconds(hm + ":" + s2).value
  {
    var f := Split(hm, ':');
    assert hm + ":" + s1 == hm + [':'] + s1;
    assert hm + ":" + s2 == hm + [':'] + s2;
    SplitSnoc(hm, ':', s1);
    SplitSnoc(hm, ':', s2);
    var h := ParseInt(Replace(f[0], "+", "")).value;
    var m := FloorOf(f[1]).value;
    ToSecondsOfFields(hm + ":" + s1, f[0], f[1], s1, h, m, FloorOf(s1).value);
    ToSecondsOfFields(hm + ":" + s2, f[0], f[1], s2, h, m, FloorOf(s2).value);
  }

  // ---------------------------------------------------------------------
  // Adding a catalog line

  /** `updateSortAttribute`: once both RAJ and DECJ are present, add the
      seconds of the first RAJ value and then of the first DECJ value to the
      sort key. */
  function UpdateSort(r: Record): (u: Result<Record>)
    ensures u.Success? ==> u.value == r.(sortKey := u.value.sortKey)
  {
    var ra := GetParameter(r, "RAJ");
    var dec := GetParameter(r, "DECJ");
    if ra.None? || dec.None? then Success(r)
    else if |ra.value| == 0 then Failure(IndexError)
    else
      var a := ToSeconds(ra.value[0]);
      if a.Failure? then Failure(a.error)
      else if |dec.value| == 0 then Failure(IndexError)
      else
        var b := ToSeconds(dec.value[0]);
        if b.Failure? then Failure(b.error)
        else Success(r.(sortKey := r.sortKey + a.value + b.value))
  }

  /** Whether a line with this key and sub-values renames the source. */
  predicate Renames(r: Record, key: string) {
    (key == "PSRJ" && r.name == Unknown) || key == "PSRB"
  }

  predicate IsCoordinate(key: string) {
    key == "RAJ" || key == "DECJ"
  }

  /** `addParameter`: the whitespace-separated tokens of `line` are a key and
      its sub-values. A PSRJ line names the source while it is still
      "Unknown", a PSRB line always does; an RAJ or DECJ value is padded; the
      sub-values replace whatever the key held; and while the sort key is 0
      it is recomputed. An empty line or a name or coordinate key without a
      value raises IndexError. */
  function AddParameterTo(r: Record, line: string): Result<Record> {
    var tokens := Tokens(line);
    if |tokens| == 0 then Failure(IndexError)
    else
      var key, value := tokens[0], tokens[1..];
      if (Renames(r, key) || IsCoordinate(key)) && |value| == 0 then Failure(IndexError)
      else
        var name := if Renames(r, key) then value[0] else r.name;
        var stored := if IsCoordinate(key) then [Pad(value[0])] + value[1..] else value;
        var r1 := Record(r.parameters[key := stored], name, r.sortKey);
        if r1.sortKey == 0 then UpdateSort(r1) else Success(r1)
  }

  /** The key and sub-values `line` stores, as `addParameter` reads it. */
  function StoredKey(line: string): string
    requires |Tokens(line)| > 0
  {
    Tokens(line)[0]
  }

  function StoredValue(line: string): seq<string>
    requires |Tokens(line)| > 0
  {
    var value := Tokens(line)[1..];
    if IsCoordinate(Tokens(line)[0]) && |value| > 0 then [Pad(value[0])] + value[1..] else value
  }

  /** A line stores its sub-values under its key, replacing the earlier list,
      and leaves every other key as it was. */
  lemma AddStoresUnderKey(r: Record, line: string)
    requires AddParameterTo(r, line).Success?
    ensures |Tokens(line)| > 0
    ensures var r' := AddParameterTo(r, line).value;
            GetParameter(r', StoredKey(line)) == Some(StoredValue(line))
            && (forall k :: k != StoredKey(line) ==> GetParameter(r', k) == GetParameter(r, k))
  {
  }

  /** A key other than RAJ and DECJ stores exactly the tokens after it. */
  lemma AddStoresTokens(r: Record, line: string)
    requires AddParameterTo(r, line).Success?
    requires !IsCoordinate(Tokens(line)[0])
    ensures GetParameter(AddParameterTo(r, line).value, Tokens(line)[0]) == Some(Tokens(line)[1..])
  {
  }

  /** A PSRJ line never renames a source that already has a name. */
  lemma JNameOnlyWhenUnknown(r: Record, line: string)
    requires AddParameterTo(r, line).Success? && Tokens(line)[0] == "PSRJ" && r.name != Unknown
    ensures AddParameterTo(r, line).value.name == r.name
  {
  }

  /** The line `key    value`, as the catalog writes it. */
  function KeyLine(key: string, value: string): string {
    key + "    " + value
  }

  lemma KeyLineTokens(key: string, value: string)
    requires |key| > 0 && NoSpace(key) && |value| > 0 && NoSpace(value)
    ensures Tokens(KeyLine(key, value)) == [key, value]
  {
    assert KeyLine(key, value) == key + "    " + value;
    assert AllSpace("    ");
    TokensOfWord(key, "    ", value);
    TokensOfLastWord(value, []);
    assert value + [] == value;
  }

  /** Whatever the order of the PSRJ and PSRB lines, the B name wins. */
  lemma BNameWins(r: Record, j: string, b: string)
    requires |j| > 0 && NoSpace(j) && |b| > 0 && NoSpace(b)
    requires Settled(r)
    ensures var jb := AddParameterTo(r, KeyLine("PSRJ", j));
            jb.Success? && AddParameterTo(jb.value, KeyLine("PSRB", b)).Success?
            && AddParameterTo(jb.value, KeyLine("PSRB", b)).value.name == b
    ensures var bj := AddParameterTo(r, KeyLine("PSRB", b));
            bj.Success? && AddParameterTo(bj.value, KeyLine("PSRJ", j)).Success?
            && AddParameterTo(bj.value, KeyLine("PSRJ", j)).value.name == (if b == Unknown then j else b)
  {
    KeyLineTokens("PSRJ", j);
    KeyLineTokens("PSRB", b);
  }

  /** What a coordinate line with one value does to a source. */
  lemma AddCoordinateLine(r: Record, key: string, v: string)
    requires IsCoordinate(key) && |v| > 0 && NoSpace(v)
    ensures var r1 := Record(r.parameters[key := [Pad(v)]], r.name, r.sortKey);
            AddParameterTo(r, KeyLine(key, v)) == if r.sortKey == 0 then UpdateSort(r1) else Success(r1)
  {
    KeyLineTokens(key, v);
    var value := Tokens(KeyLine(key, v))[1..];
    assert value == [v];
    assert [Pad(value[0])] + value[1..] == [Pad(v)];
    assert !Renames(r, key);
  }

  lemma PadNoSpace(v: string)
    requires NoSpace(v)
    ensures NoSpace(Pad(v)) && |Pad(v)| >= |v|
  {
    var p := Pad(v);
    assert p == v || p == v + ":00:00" || p == v + ":00";
  }

  /** Re-adding the coordinate text a source stores, as the one value of its
      line, gives back the same source. */
  lemma ReaddCoordinateStable(r: Record, key: string, v: string)
    requires IsCoordinate(key) && |v| > 0 && NoSpace(v)
    requires AddParameterTo(r, KeyLine(key, v)).Success?
    ensures var r' := AddParameterTo(r, KeyLine(key, v)).value;
            GetParameter(r', key) == Some([Pad(v)])
            && AddParameterTo(r', KeyLine(key, Pad(v))) == Success(r')
  {
    var r' := AddParameterTo(r, KeyLine(key, v)).value;
    StoresPadded(r, key, v);
    PadNoSpace(v);
    PadIdempotent(v);
    AddSettles(r, KeyLine(key, v));
    ReaddSame(r', key, Pad(v));
  }

  lemma StoresPadded(r: Record, key: string, v: string)
    requires IsCoordinate(key) && |v| > 0 && NoSpace(v)
    requires AddParameterTo(r, KeyLine(key, v)).Success?
    ensures AddParameterTo(r, KeyLine(key, v)).value.parameters == r.parameters[key := [Pad(v)]]
  {
    AddCoordinateLine(r, key, v);
  }

  /** A settled source re-reading the padded value it stores is unchanged. */
  lemma ReaddSame(r: Record, key: string, p: string)
    requires IsCoordinate(key) && |p| > 0 && NoSpace(p) && Pad(p) == p
    requires key in r.parameters && r.parameters[key] == [p] && Settled(r)
    ensures AddParameterTo(r, KeyLine(key, p)) == Success(r)
  {
    AddCoordinateLine(r, key, p);
    assert r.parameters[key := [p]] == r.parameters;
    assert Record(r.parameters, r.name, r.sortKey) == r;
  }

  /** A sort key of 0 is settled when recomputing it changes nothing: no
      coordinate is missing its counterpart with a sum still to add. Every
      record `addParameter` returns is settled. */
  predicate Settled(r: Record) {
    r.sortKey != 0 || UpdateSort(r) == Success(r)
  }

  lemma AddSettles(r: Record, line: string)
    requires AddParameterTo(r, line).Success?
    ensures Settled(AddParameterTo(r, line).value)
  {
  }

  /** Once non-zero, the sort key never changes. */
  lemma SortKeyFrozen(r: Record, line: string)
    requires r.sortKey != 0 && AddParameterTo(r, line).Success?
    ensures AddParameterTo(r, line).value.sortKey == r.sortKey
  {
  }

  /** While the sort key is 0, it becomes the sum of the seconds of the first
      RAJ and DECJ values as soon as both are present, and stays 0 otherwise. */
  lemma SortKeyComputed(r: Record, line: string)
    requires r.sortKey == 0 && AddParameterTo(r, line).Success?
    ensures var r' := AddParameterTo(r, line).value;
            if "RAJ" in r'.parameters && "DECJ" in r'.parameters then
              |r'.parameters["RAJ"]| > 0 && |r'.parameters["DECJ"]| > 0
              && ToSeconds(r'.parameters["RAJ"][0]).Success?
              && ToSeconds(r'.parameters["DECJ"][0]).Success?
              && r'.sortKey == ToSeconds(r'.parameters["RAJ"][0]).value + ToSeconds(r'.parameters["DECJ"][0]).value
            else r'.sortKey == 0
  {
  }

  /** Adding a key other than RAJ and DECJ to a settled source keeps its
      name and its sort key, and cannot fail once the line has a key. */
  lemma AddOtherKeepsSortKey(r: Record, line: string)
    requires Settled(r) && |Tokens(line)| > 0
    requires var key := Tokens(line)[0]; !IsCoordinate(key) && key != "PSRJ" && key != "PSRB"
    ensures AddParameterTo(r, line).Success?
    ensures AddParameterTo(r, line).value.sortKey == r.sortKey
    ensures AddParameterTo(r, line).value.name == r.name
  {
    var key := Tokens(line)[0];
    var r1 := Record(r.parameters[key := Tokens(line)[1..]], r.name, r.sortKey);
    assert GetParameter(r1, "RAJ") == GetParameter(r, "RAJ");
    assert GetParameter(r1, "DECJ") == GetParameter(r, "DECJ");
  }

  // ---------------------------------------------------------------------
  // Text form

  /** Python's `str()` of an optional string: the text, or "None". */
  function Show(v: Option<string>): string {
    if v.None? then "None" else v.value
  }

  /** Python's `",".join(fields)`. */
  function JoinComma(fields: seq<string>): string
    requires |fields| > 0
  {
    if |fields| == 1 then fields[0] else fields[0] + "," + JoinComma(fields[1..])
  }

  /** Splitting a comma-joined text at its commas gives back the fields when
      none of them holds a comma. */
  lemma {:induction false} SplitJoinComma(fields: seq<string>)
    requires |fields| > 0
    requires forall i :: 0 <= i < |fields| ==> ',' !in fields[i]
    ensures Split(JoinComma(fields), ',') == fields
    decreases |fields|
  {
    if |fields| == 1 {
      SplitNoSeparator(fields[0], ',');
    } else {
      SplitJoinComma(fields[1..]);
      assert fields[0] + "," + JoinComma(fields[1..]) == fields[0] + [','] + JoinComma(fields[1..]);
      SplitJoin(fields[0], ',', JoinComma(fields[1..]));
    }
  }

  /** The six fields `__str__` writes: name, first RAJ, DECJ, P0 and DM
      values (or "None"), and the sort key. */
  function DescribedFields(r: Record): seq<string> {
    [r.name, Show(GetParameterAtIndex(r, "RAJ", 0)), Show(GetParameterAtIndex(r, "DECJ", 0)),
     Show(GetParameterAtIndex(r, "P0", 0)), Show(GetParameterAtIndex(r, "DM", 0)), IntText(r.sortKey)]
  }

  /** `__str__`: the described fields separated by commas. */
  function Describe(r: Record): string {
    JoinComma(DescribedFields(r))
  }

  lemma IntTextHasNoComma(i: int)
    ensures ',' !in IntText(i)
  {
    var d := NatText(if i < 0 then -i else i);
    DigitsWithout(d, ',');
    if i < 0 {
      assert IntText(i) == "-" + d;
    }
  }

  /** When no stored value holds a comma, the comma-separated fields of the
      description read back as the name, the four first values (or "None")
      and the sort key. */
  lemma DescribeFields(r: Record)
    requires ',' !in r.name
    requires forall k :: k in r.parameters && |r.parameters[k]| > 0 ==> ',' !in r.parameters[k][0]
    ensures Split(Describe(r), ',') == DescribedFields(r)
    ensures |DescribedFields(r)| == 6
  {
    IntTextHasNoComma(r.sortKey);
    SplitJoinComma(DescribedFields(r));
  }

  // ---------------------------------------------------------------------
  // The mutable source object

  /** A KnownSource object: the catalog parser's scratch record and the
      candidate handed to the matcher are both updated in place. */
  class KnownSource {
    var parameters: map<string, seq<string>>
    var name: string
    var sortKey: int

    function Snapshot(): Record
      reads this
    {
      Record(parameters, name, sortKey)
    }

    /** `__init__`: no parameters, sort key 0, the given name. */
    constructor(name: string)
      ensures Snapshot() == Blank(name)
    {
      parameters := map[];
      this.name := name;
      sortKey := 0;
    }

    /** `updateSortAttribute`, in place. */
    method UpdateSortAttribute() returns (ok: bool)
      modifies this
      ensures ok == UpdateSort(old(Snapshot())).Success?
      ensures ok ==> Snapshot() == UpdateSort(old(Snapshot())).value
    {
      if "RAJ" in parameters && "DECJ" in parameters {
        var ra, dec := parameters["RAJ"], parameters["DECJ"];
        if |ra| == 0 {
          return false;
        }
        var a := ToSeconds(ra[0]);
        if a.Failure? {
          return false;
        }
        sortKey := sortKey + a.value;
        if |dec| == 0 {
          return false;
        }
        var b := ToSeconds(dec[0]);
        if b.Failure? {
          return false;
        }
        sortKey := sortKey + b.value;
      }
      return true;
    }

    /** `addParameter`, in place; `ok` is false where Python raises. */
    method AddParameter(line: string) returns (ok: bool)
      modifies this
      ensures ok == AddParameterTo(old(Snapshot()), line).Success?
      ensures ok ==> Snapshot() == AddParameterTo(old(Snapshot()), line).value
    {
      var tokens := Tokens(line);
      if |tokens| == 0 {
        return false;
      }
      var key, value := tokens[0], tokens[1..];
      if key == "PSRJ" && name == Unknown {
        if |value| == 0 {
          return false;
        }
        name := value[0];
      } else if key == "PSRB" {
        if |value| == 0 {
          return false;
        }
        name := value[0];
      }
      if key == "RAJ" || key == "DECJ" {
        if |value| == 0 {
          return false;
        }
        value := [Pad(value[0])] + value[1..];
      }
      parameters := parameters[key := value];
      ok := true;
      if sortKey == 0 {
        ok := UpdateSortAttribute();
      }
    }
  }
}

/** The web-entry normaliser of PulsarSiteScraper.py: the `Source` record a
    scraped table row becomes, the derivation of a position from a pulsar
    name, the row `toString` writes, the tag filter, and the per-line test
    with which `clean` keeps or drops a written row. */
module SiteScraper {
  import opened Wrappers
  import opened Text
  import opened Numbers
  import opened CatalogFormat

  // ---------------------------------------------------------------------
  // Positions derived from a name
  // ---------------------------------------------------------------------

  predicate Unsigned(s: string) {
    '+' !in s && '-' !in s
  }

  /** What `extractRAAndDECFromName` derives from a name: the RA and the DEC
      it would store, or None when the name has no sign or its sign is not
      preceded by four characters after the "J" and followed by two or four.
      A "+" anywhere in the name takes precedence over a "-". */
  function NameCoordinates(name: string): (r: Option<(string, string)>)
    ensures r.Some? ==> '+' in name || '-' in name
    ensures r.Some? ==> |r.value.1| > 0 && r.value.1[0] == (if '+' in name then '+' else '-')
  {
    if '+' !in name && '-' !in name then None
    else
      var sign := if '+' in name then '+' else '-';
      var fromJ := Find(name, sign) - Find(name, 'J') - 1;
      var toEnd := |name| - Find(name, sign) - 1;
      var ra := Slice(name, 1, 3) + ":" + Slice(name, 3, 5) + ":00";
      var dec := if toEnd == 2 then [sign] + Slice(name, 6, |name|) + ":00:00"
                 else [sign] + Slice(name, 6, 8) + ":" + Slice(name, 8, 10) + ":00";
      if fromJ == 4 && (toEnd == 2 || toEnd == 4) then Some((ra, dec)) else None
  }

  /** The RA and DEC a source holds after the derivation: a value already
      present is kept, a missing one is taken from the name when the name
      has a recognised shape. */
  function Completed(name: string, ra: Option<string>, dec: Option<string>): (r: (Option<string>, Option<string>))
    ensures ra.Some? ==> r.0 == ra
    ensures dec.Some? ==> r.1 == dec
    ensures NameCoordinates(name).None? ==> r == (ra, dec)
    ensures NameCoordinates(name).Some? ==> r.0.Some? && r.1.Some?
    ensures ra.None? && NameCoordinates(name).Some? ==> r.0 == Some(NameCoordinates(name).value.0)
    ensures dec.None? && NameCoordinates(name).Some? ==> r.1 == Some(NameCoordinates(name).value.1)
  {
    match NameCoordinates(name)
    case None => (ra, dec)
    case Some(d) =>
      (if ra.None? then Some(d.0) else ra, if dec.None? then Some(d.1) else dec)
  }

  /** In "J" + pre + sign + post with unsigned `pre` and `post`, the sign is
      the one found and the "J" sits at index 0. */
  lemma SignAt(pre: string, sign: char, post: string)
    requires sign == '+' || sign == '-'
    requires Unsigned(pre) && Unsigned(post)
    ensures var name := "J" + pre + [sign] + post;
            Find(name, 'J') == 0 && Find(name, sign) == |pre| + 1
            && ('+' in name <==> sign == '+')
  {
    var name := "J" + pre + [sign] + post;
    assert name[0] == 'J';
    assert name == ("J" + pre) + ([sign] + post);
    assert name[..|pre| + 1] == "J" + pre;
    assert name[|pre| + 1] == sign;
    FirstOccurrence(name, sign, |pre| + 1);
  }

  /** The first occurrence of a character is the one `find` reports. */
  lemma {:induction false} FirstOccurrence(s: string, c: char, j: nat)
    requires j < |s| && s[j] == c && c !in s[..j]
    ensures Find(s, c) == j
    decreases j
  {
    if j > 0 {
      assert s[0] == s[..j][0];
      assert s[1..][..j - 1] == s[..j][1..];
      FirstOccurrence(s[1..], c, j - 1);
    }
  }

  /** "J" + HH + MM + sign + DD + MM gives RA "HH:MM:00" and DEC
      sign + "DD:MM:00"; J0024-7204, for one, gives 00:24:00 and -72:04:00. */
  lemma FourDigitDeclination(hh: string, mm: string, sign: char, dd: string, dm: string)
    requires |hh| == 2 && |mm| == 2 && |dd| == 2 && |dm| == 2
    requires Unsigned(hh + mm) && Unsigned(dd + dm)
    requires sign == '+' || sign == '-'
    ensures NameCoordinates("J" + hh + mm + [sign] + dd + dm)
            == Some((hh + ":" + mm + ":00", [sign] + dd + ":" + dm + ":00"))
  {
    var name := "J" + hh + mm + [sign] + dd + dm;
    assert name == "J" + (hh + mm) + [sign] + (dd + dm);
    SignAt(hh + mm, sign, dd + dm);
    assert name[1..3] == hh && name[3..5] == mm;
    assert name[6..8] == dd && name[8..10] == dm;
  }

  /** "J" + HH + MM + sign + DD gives RA "HH:MM:00" and DEC sign + "DD:00:00". */
  lemma TwoDigitDeclination(hh: string, mm: string, sign: char, dd: string)
    requires |hh| == 2 && |mm| == 2 && |dd| == 2
    requires Unsigned(hh + mm) && Unsigned(dd)
    requires sign == '+' || sign == '-'
    ensures NameCoordinates("J" + hh + mm + [sign] + dd)
            == Some((hh + ":" + mm + ":00", [sign] + dd + ":00:00"))
  {
    var name := "J" + hh + mm + [sign] + dd;
    assert name == "J" + (hh + mm) + [sign] + dd;
    SignAt(hh + mm, sign, dd);
    assert |name| == 8;
    assert name[1..3] == hh && name[3..5] == mm;
    assert Slice(name, 6, |name|) == name[6..8] == dd;
  }

  // ---------------------------------------------------------------------
  // The row toString writes
  // ---------------------------------------------------------------------

  /** Python's `str` of an optional field. */
  function Shown(f: Option<string>): string {
    if f.Some? then f.value else "None"
  }

  /** A field that prints as one whitespace-free token. */
  predicate Printable(f: Option<string>) {
    f.None? || (|f.value| > 0 && NoSpace(f.value))
  }

  /** The fields joined with `sep` between neighbours. */
  function Join(fields: seq<string>, sep: string): string
    requires |fields| > 0
    decreases |fields|
  {
    if |fields| == 1 then fields[0] else fields[0] + sep + Join(fields[1..], sep)
  }

  lemma {:induction false} TokensOfJoin(fields: seq<string>, sep: string)
    requires |fields| > 0
    requires forall i :: 0 <= i < |fields| ==> |fields[i]| > 0 && NoSpace(fields[i])
    requires |sep| > 0 && AllSpace(sep)
    ensures Tokens(Join(fields, sep)) == fields
    decreases |fields|
  {
    if |fields| == 1 {
      TokensOfLastWord(fields[0], "");
      assert fields[0] + "" == fields[0];
    } else {
      TokensOfJoin(fields[1..], sep);
      TokensOfWord(fields[0], sep, Join(fields[1..], sep));
      assert [fields[0]] + fields[1..] == fields;
    }
  }

  lemma IntTextIsWord(i: int)
    ensures |IntText(i)| > 0 && NoSpace(IntText(i))
  {
    var d := NatText(if i < 0 then -i else i);
    assert forall k :: 0 <= k < |d| ==> IsDigit(d[k]);
    assert NoSpace(d);
    if i < 0 {
      assert IntText(i) == "-" + d;
      assert forall k :: 1 <= k < |IntText(i)| ==> IntText(i)[k] == d[k - 1];
    }
  }

  /** The columns of a written row: the serial number, then name, RA, DEC,
      period, F0 (written as 0) and DM, each value followed by its error
      "1.0e-01". */
  function RowColumns(numb: int, name: Option<string>, ra: Option<string>, dec: Option<string>,
                      period: Option<string>, dm: Option<string>): seq<string>
  {
    [IntText(numb), Shown(name), Shown(ra), "1.0e-01", Shown(dec), "1.0e-01", Shown(period),
     "1.0e-01", "0", "1.0e-01", Shown(dm), "1.0e-01"]
  }

  lemma RowColumnsAreWords(numb: int, name: Option<string>, ra: Option<string>, dec: Option<string>,
                           period: Option<string>, dm: Option<string>)
    requires Printable(name) && Printable(ra) && Printable(dec) && Printable(period) && Printable(dm)
    ensures var f := RowColumns(numb, name, ra, dec, period, dm);
            forall i :: 0 <= i < |f| ==> |f[i]| > 0 && NoSpace(f[i])
  {
    ErrorIsWord();
    IntTextIsWord(numb);
    ShownIsWord(name);
    ShownIsWord(ra);
    ShownIsWord(dec);
    ShownIsWord(period);
    ShownIsWord(dm);
    assert NoSpace("0");
    var f := RowColumns(numb, name, ra, dec, period, dm);
    forall i | 0 <= i < |f| ensures |f[i]| > 0 && NoSpace(f[i]) {
      if i == 0 {
        assert f[i] == IntText(numb);
      } else if i == 1 {
        assert f[i] == Shown(name);
      } else if i == 2 {
        assert f[i] == Shown(ra);
      } else if i == 4 {
        assert f[i] == Shown(dec);
      } else if i == 6 {
        assert f[i] == Shown(period);
      } else if i == 8 {
        assert f[i] == "0";
      } else if i == 10 {
        assert f[i] == Shown(dm);
      } else {
        assert f[i] == "1.0e-01";
      }
    }
  }

  lemma ErrorIsWord()
    ensures NoSpace("1.0e-01")
  {
    var e := "1.0e-01";
    forall i | 0 <= i < |e| ensures !IsSpace(e[i]) {
    }
  }

  lemma ShownIsWord(f: Option<string>)
    requires Printable(f)
    ensures |Shown(f)| > 0 && NoSpace(Shown(f))
  {
    var none := "None";
    forall i | 0 <= i < |none| ensures !IsSpace(none[i]) {
    }
  }

  /** Words joined by a tab after the first and double tabs after the
      others split back into those words. */
  lemma RowTokens(columns: seq<string>)
    requires |columns| > 1
    requires forall i :: 0 <= i < |columns| ==> |columns[i]| > 0 && NoSpace(columns[i])
    ensures Tokens(columns[0] + "\t" + Join(columns[1..], "\t\t")) == columns
  {
    TokensOfJoin(columns[1..], "\t\t");
    TokensOfWord(columns[0], "\t", Join(columns[1..], "\t\t"));
    assert [columns[0]] + columns[1..] == columns;
  }

  // ---------------------------------------------------------------------
  // A scraped source
  // ---------------------------------------------------------------------

  class Source {
    var name: Option<string>
    var period: Option<string>
    var dm: Option<string>
    var ra: Option<string>
    var dec: Option<string>

    constructor()
      ensures name.None? && period.None? && dm.None? && ra.None? && dec.None?
    {
      name := None;
      period := None;
      dm := None;
      ra := None;
      dec := None;
    }

    /** `setName`: the name is stored without surrounding whitespace. */
    method SetName(x: string)
      modifies this`name
      ensures name == Some(Strip(x))
      ensures name.value == [] || (!IsSpace(name.value[0]) && !IsSpace(name.value[|name.value| - 1]))
    {
      name := Some(Strip(x));
    }

    /** `extractRAAndDECFromName`: fills a missing RA or DEC from the name.
        Without a name Python raises TypeError (`ok` false). */
    method ExtractRAAndDECFromName() returns (ok: bool)
      modifies this`ra, this`dec
      ensures ok == name.Some?
      ensures !ok ==> ra == old(ra) && dec == old(dec)
      ensures ok ==> (ra, dec) == Completed(name.value, old(ra), old(dec))
    {
      if name.None? {
        return false;
      }
      var n := name.value;
      ok := true;
      if '+' in n || '-' in n {
        var sign := if '+' in n then '+' else '-';
        var fromJ := Find(n, sign) - Find(n, 'J') - 1;
        var toEnd := |n| - Find(n, sign) - 1;
        if fromJ == 4 && (toEnd == 2 || toEnd == 4) {
          if ra.None? {
            ra := Some(Slice(n, 1, 3) + ":" + Slice(n, 3, 5) + ":00");
          }
          if dec.None? {
            if toEnd == 2 {
              dec := Some([sign] + Slice(n, 6, |n|) + ":00:00");
            } else {
              dec := Some([sign] + Slice(n, 6, 8) + ":" + Slice(n, 8, 10) + ":00");
            }
          }
        }
      }
    }

    /** `isValid`: a source with a name starting with "J", a DM and a period
        is valid when it has an RA and a DEC once they are derived from its
        name; any other source is invalid and left as it is. */
    method IsValid() returns (valid: bool)
      modifies this`ra, this`dec
      ensures var eligible := name.Some? && dm.Some? && period.Some? && StartsWith(name.value, "J");
              (!eligible ==> !valid && ra == old(ra) && dec == old(dec))
              && (eligible ==> (ra, dec) == Completed(name.value, old(ra), old(dec))
                               && (valid <==> ra.Some? && dec.Some?))
    {
      if name.Some? && dm.Some? && period.Some? {
        if !StartsWith(name.value, "J") {
          return false;
        }
        var _ := ExtractRAAndDECFromName();
        valid := ra.Some? && dec.Some?;
      } else {
        valid := false;
      }
    }

    /** `toString`: the serial number, a tab, then name, RA, DEC, period, F0
        and DM each with its error, separated by double tabs. With no
        whitespace inside the fields the row splits into exactly these
        twelve tokens. */
    function ToString(numb: int): (s: string)
      reads this
      ensures Printable(name) && Printable(ra) && Printable(dec) && Printable(period) && Printable(dm)
              ==> Tokens(s) == RowColumns(numb, name, ra, dec, period, dm)
    {
      var columns := RowColumns(numb, name, ra, dec, period, dm);
      var row := columns[0] + "\t" + Join(columns[1..], "\t\t");
      if Printable(name) && Printable(ra) && Printable(dec) && Printable(period) && Printable(dm) then
        RowColumnsAreWords(numb, name, ra, dec, period, dm);
        RowTokens(columns);
        row
      else row
    }
  }

  /** A row written by `toString` has the layout the web-format parser of
      the catalog reads: with the long header line, NAME, RAJ, DECJ, P0, F0
      and DM map to tokens 1, 2, 4, 6, 8 and 10, which hold the name, RA,
      DEC, period, 0 and DM, and each is followed by its error "1.0e-01". */
  lemma RowMeetsWebLayout(src: Source, numb: int)
    requires Printable(src.name) && Printable(src.ra) && Printable(src.dec)
    requires Printable(src.period) && Printable(src.dm)
    ensures AddHeaders(map[], LongHeaders)
            == map["#" := 0, "NAME" := 1, "RAJ" := 2, "DECJ" := 4, "P0" := 6, "F0" := 8, "DM" := 10]
    ensures var t := Tokens(src.ToString(numb));
            |t| == 12 && t[0] == IntText(numb)
            && t[1] == Shown(src.name) && t[2] == Shown(src.ra) && t[4] == Shown(src.dec)
            && t[6] == Shown(src.period) && t[8] == "0" && t[10] == Shown(src.dm)
            && t[3] == t[5] == t[7] == t[9] == t[11] == "1.0e-01"
  {
    LongHeaderColumns();
  }

  // ---------------------------------------------------------------------
  // filterText
  // ---------------------------------------------------------------------

  predicate Ascii(s: string) {
    forall i :: 0 <= i < |s| ==> s[i] as int < 128
  }

  /** The tags `filterText` deletes, in the order it deletes them. */
  const Tags: seq<string> := ["<font size=\"2\">", "</font>", "<br>", "<br/>", "<strike>", "</strike>",
                              "<span>", "</span>", "<i>", "</i>", "<br/>"]

  lemma TagsOpenWithBracket()
    ensures forall i :: 0 <= i < |Tags| ==> |Tags[i]| > 0 && Tags[i][0] == '<'
  {
  }

  lemma {:induction false} DeleteKeepsCharacters(s: string, p: string)
    requires |p| > 0
    ensures forall c :: c in Replace(s, p, "") ==> c in s
    decreases |s|
  {
    if |s| >= |p| {
      if s[..|p|] == p {
        DeleteKeepsCharacters(s[|p|..], p);
        assert "" + Replace(s[|p|..], p, "") == Replace(s[|p|..], p, "");
      } else {
        DeleteKeepsCharacters(s[1..], p);
      }
    }
  }

  lemma {:induction false} DeleteRemovesCharacter(s: string, c: char)
    ensures c !in Replace(s, [c], "")
    decreases |s|
  {
    if |s| >= 1 {
      DeleteRemovesCharacter(s[1..], c);
      if s[..1] == [c] {
        assert "" + Replace(s[1..], [c], "") == Replace(s[1..], [c], "");
      } else {
        assert s[0] != c;
      }
    }
  }

  /** Each tag in turn deleted from `s`. */
  function DeleteAll(s: string, tags: seq<string>): (r: string)
    requires forall i :: 0 <= i < |tags| ==> |tags[i]| > 0
    ensures |r| <= |s|
    ensures forall c :: c in r ==> c in s
    decreases |tags|
  {
    if tags == [] then s
    else
      DeleteShortens(s, tags[0]);
      DeleteKeepsCharacters(s, tags[0]);
      DeleteAll(Replace(s, tags[0], ""), tags[1..])
  }

  lemma {:induction false} DeleteAllAbsent(s: string, tags: seq<string>)
    requires forall i :: 0 <= i < |tags| ==> |tags[i]| > 0 && tags[i][0] == '<'
    requires '<' !in s
    ensures DeleteAll(s, tags) == s
    decreases |tags|
  {
    if tags != [] {
      ReplaceAbsent(s, tags[0], "");
      DeleteAllAbsent(s, tags[1..]);
    }
  }

  /** `filterText`: non-ASCII characters dropped, then the tags deleted. The
      result is ASCII, never longer than the text, and holds no character
      the text does not. */
  function FilterText(text: string): (r: string)
    ensures |r| <= |text| && Ascii(r)
    ensures forall c :: c in r ==> c in text
  {
    var t := KeepAscii(text);
    TagsOpenWithBracket();
    AsciiPartKeepsCharacters(text);
    var r := DeleteAll(t, Tags);
    CharactersCarry(text, t, r);
    r
  }

  /** Text drawn from ASCII text `t`, itself drawn from `text`, is ASCII
      and drawn from `text`. */
  lemma CharactersCarry(text: string, t: string, r: string)
    requires Ascii(t) && (forall c :: c in t ==> c in text) && (forall c :: c in r ==> c in t)
    ensures Ascii(r) && forall c :: c in r ==> c in text
  {
    assert forall i :: 0 <= i < |r| ==> r[i] in t;
  }

  lemma AsciiPartKeepsCharacters(text: string)
    ensures forall c :: c in KeepAscii(text) ==> c in text
  {
    forall c | c in KeepAscii(text) ensures c in text {
      if c !in text {
        KeepAsciiSubset(text, c);
      }
    }
  }

  /** ASCII text without a "<" passes the filter unchanged. */
  lemma FilterKeepsPlainText(text: string)
    requires Ascii(text) && '<' !in text
    ensures FilterText(text) == text
  {
    assert KeepAscii(text) == text;
    TagsOpenWithBracket();
    DeleteAllAbsent(text, Tags);
  }

  // ---------------------------------------------------------------------
  // The per-line test of clean
  // ---------------------------------------------------------------------

  /** The text `clean` splits and writes back: the filtered line without
      its line breaks. */
  function Cleaned(line: string): (r: string)
    ensures Ascii(r) && '\n' !in r
    ensures forall c :: c in r ==> c in line
  {
    var f := FilterText(line);
    NewlinesRemoved(f);
    Replace(f, "\n", "")
  }

  /** Deleting the newlines from ASCII text leaves ASCII text with no
      newline and no new character. */
  lemma NewlinesRemoved(f: string)
    requires Ascii(f)
    ensures var r := Replace(f, "\n", "");
            Ascii(r) && '\n' !in r && forall c :: c in r ==> c in f
  {
    DeleteRemovesCharacter(f, '\n');
    DeleteKeepsCharacters(f, "\n");
    var r := Replace(f, "\n", "");
    assert forall i :: 0 <= i < |r| ==> r[i] in f;
  }

  /** The field tests of `clean` AS WRITTEN: the DEC test on line 141
      measures the length of field 2 (the RA) where it means field 4. */
  predicate FieldsPassAsWritten(c: seq<string>)
    requires |c| == 12
  {
    StartsWith(c[1], "J") && 8 <= |c[1]| <= 10
    && !(Count(c[2], ':') != 2 && 7 < |c[2]| < 13)
    && !(Count(c[4], ':') != 2 && 8 < |c[4]| && |c[2]| < 14)
    && ParseFloat(c[6]).Some? && ParseFloat(c[10]).Some?
  }

  /** The field tests of `clean` as intended: a J name of 8 to 10
      characters, an RA and a DEC that are either short or have three
      colon-separated parts, and a period and a DM that parse as numbers. */
  predicate FieldsPass(c: seq<string>)
    requires |c| == 12
  {
    StartsWith(c[1], "J") && 8 <= |c[1]| <= 10
    && !(Count(c[2], ':') != 2 && 7 < |c[2]| < 13)
    && !(Count(c[4], ':') != 2 && 8 < |c[4]| < 14)
    && ParseFloat(c[6]).Some? && ParseFloat(c[10]).Some?
  }

  /** As intended, a malformed DEC of DEC length is rejected whatever the RA. */
  lemma DecJudgedOnItsOwn(c: seq<string>)
    requires |c| == 12 && Count(c[4], ':') != 2 && 8 < |c[4]| < 14
    ensures !FieldsPass(c)
  {
  }

  /** As written, a malformed DEC of DEC length passes whenever the RA
      field is 14 characters or longer with two colons, as a full-precision
      RA is. */
  lemma DecCheckMisread(c: seq<string>)
    requires |c| == 12 && StartsWith(c[1], "J") && 8 <= |c[1]| <= 10
    requires Count(c[2], ':') == 2 && |c[2]| >= 14
    requires Count(c[4], ':') != 2 && 8 < |c[4]| < 14
    requires ParseFloat(c[6]).Some? && ParseFloat(c[10]).Some?
    ensures FieldsPassAsWritten(c) && !FieldsPass(c)
  {
  }

  lemma SampleName()
    ensures StartsWith("J0024-7204", "J") && |"J0024-7204"| == 10
  {
  }

  lemma SampleRightAscension()
    ensures Count("00:24:07.95870", ':') == 2 && |"00:24:07.95870"| == 14
  {
  }

  lemma SampleDeclination()
    ensures Count("+123456789", ':') == 0 && |"+123456789"| == 10
  {
  }

  lemma SampleNumber()
    ensures ParseFloat("2").Some?
  {
    assert AllDigits("2");
    DigitsAreFloat("2");
  }

  /** The row of J0024-7204 with a full-precision RA and a DEC without
      colons. */
  const SampleRow: seq<string> := ["1", "J0024-7204", "00:24:07.95870", "1.0e-01", "+123456789", "1.0e-01",
                                   "2", "1.0e-01", "0", "1.0e-01", "2", "1.0e-01"]

  /** `clean` as written keeps the sample row; as intended it is dropped. */
  lemma DecCheckReadsRaLength()
    ensures |SampleRow| == 12
    ensures FieldsPassAsWritten(SampleRow) && !FieldsPass(SampleRow)
  {
    SampleRowFields();
    SampleName();
    SampleRightAscension();
    SampleDeclination();
    SampleNumber();
    DecCheckMisread(SampleRow);
  }

  lemma SampleRowFields()
    ensures |SampleRow| == 12 && SampleRow[1] == "J0024-7204" && SampleRow[2] == "00:24:07.95870"
    ensures SampleRow[4] == "+123456789" && SampleRow[6] == "2" && SampleRow[10] == "2"
  {
  }

  /** A row `clean` accepts: twelve fields that pass the tests as written. */
  predicate GoodRow(text: string) {
    var c := UnicodeTokens(text);
    |c| == 12 && FieldsPassAsWritten(c)
  }

  /** A row the intended tests accept. */
  predicate GoodRowIntended(text: string) {
    var c := UnicodeTokens(text);
    |c| == 12 && FieldsPass(c)
  }

  /** `clean` keeps a line when its cleaned text is a good row. */
  predicate Kept(line: string) {
    GoodRow(Cleaned(line))
  }

  /** The lines `clean` considers at all: those of twelve fields. */
  function RowCount(lines: seq<string>): (n: nat)
    ensures n <= |lines|
    decreases |lines|
  {
    if lines == [] then 0
    else RowCount(lines[..|lines| - 1]) + (if |UnicodeTokens(Cleaned(lines[|lines| - 1]))| == 12 then 1 else 0)
  }

  /** The cleaned text of the kept lines, in order. Every one of them splits
      into twelve fields that pass the tests, and there are no more of them
      than there are twelve-field lines. */
  function CleanedRows(lines: seq<string>): (r: seq<string>)
    ensures |r| <= RowCount(lines)
    ensures forall i :: 0 <= i < |r| ==> GoodRow(r[i])
    decreases |lines|
  {
    if lines == [] then []
    else
      var line := lines[|lines| - 1];
      CleanedRows(lines[..|lines| - 1]) + (if Kept(line) then [Cleaned(line)] else [])
  }

  /** The rows `clean` would keep with the DEC test judged on the DEC
      field: every one of them passes the intended tests, so by
      `DecJudgedOnItsOwn` none has a malformed DEC of DEC length. */
  function CleanedRowsIntended(lines: seq<string>): (r: seq<string>)
    ensures |r| <= RowCount(lines)
    ensures forall i :: 0 <= i < |r| ==> GoodRowIntended(r[i])
    decreases |lines|
  {
    if lines == [] then []
    else
      var line := lines[|lines| - 1];
      CleanedRowsIntended(lines[..|lines| - 1]) + (if GoodRowIntended(Cleaned(line)) then [Cleaned(line)] else [])
  }

  /** Cleaning is settled: when no line holds a "<", cleaning the kept rows
      again keeps all of them, unchanged. */
  lemma {:induction false} CleanAgainKeepsRows(lines: seq<string>)
    requires forall i :: 0 <= i < |lines| ==> '<' !in lines[i]
    ensures CleanedRows(CleanedRows(lines)) == CleanedRows(lines)
    decreases |lines|
  {
    if lines != [] {
      var init := lines[..|lines| - 1];
      var line := lines[|lines| - 1];
      CleanAgainKeepsRows(init);
      if Kept(line) {
        var r := Cleaned(line);
        assert '<' !in r;
        FilterKeepsPlainText(r);
        ReplaceAbsent(r, "\n", "");
        assert Cleaned(r) == r;
        assert Kept(r);
        var rows := CleanedRows(init) + [r];
        assert CleanedRows(lines) == rows;
        assert rows[..|rows| - 1] == CleanedRows(init) && rows[|rows| - 1] == r;
      } else {
        assert CleanedRows(lines) == CleanedRows(init);
      }
    }
  }

  lemma CleanStep(lines: seq<string>, i: nat)
    requires i < |lines|
    ensures var c := UnicodeTokens(Cleaned(lines[i]));
            && CleanedRows(lines[..i + 1])
               == CleanedRows(lines[..i]) + (if |c| == 12 && FieldsPassAsWritten(c) then [Cleaned(lines[i])] else [])
            && RowCount(lines[..i + 1]) == RowCount(lines[..i]) + (if |c| == 12 then 1 else 0)
  {
    var next := lines[..i + 1];
    assert next[..|next| - 1] == lines[..i] && next[|next| - 1] == lines[i];
  }

  /** One line of `clean`: its cleaned text, whether it has twelve fields
      and whether it is kept. */
  method CleanLine(line: string) returns (text: string, counted: bool, keep: bool)
    ensures text == Cleaned(line) && counted == (|UnicodeTokens(text)| == 12) && keep == Kept(line)
    ensures keep ==> counted
  {
    text := Cleaned(line);
    var components := UnicodeTokens(text);
    counted := |components| == 12;
    keep := counted && FieldsPassAsWritten(components);
  }

  /** `clean` over the lines read from the file: the cleaned text of every
      kept line, the count of kept lines (`good`) and the count of
      twelve-field lines that failed a test (`bad`). */
  method Clean(lines: seq<string>) returns (kept: seq<string>, good: nat, bad: nat)
    ensures kept == CleanedRows(lines)
    ensures good == |kept| && good + bad == RowCount(lines)
  {
    kept := [];
    good := 0;
    bad := 0;
    var i := 0;
    while i < |lines|
      invariant 0 <= i <= |lines|
      invariant kept == CleanedRows(lines[..i])
      invariant good == |kept| && good + bad == RowCount(lines[..i])
    {
      var text, counted, keep := CleanLine(lines[i]);
      ghost var next := lines[..i + 1];
      CleanStep(lines, i);
      if keep {
        good := good + 1;
        kept := kept + [text];
      } else if counted {
        bad := bad + 1;
      }
      i := i + 1;
      assert lines[..i] == next;
    }
    assert lines[..i] == lines;
  }
}

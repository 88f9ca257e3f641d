/**
 * The small parsers of class Records: `intify` (a recid column with leading
 * zeros to an integer), `ids_from_line` (the htid and recid columns of a
 * tab-separated hathifile line) and `yyyymm_from_filename` (the load month
 * from a hathifile's name).
 */
module LineParsing {
  import opened Wrappers

  const Tab: char := '\t'

  predicate IsDigit(c: char) {
    '0' <= c <= '9'
  }

  predicate AllDigits(s: string) {
    forall i :: 0 <= i < |s| ==> IsDigit(s[i])
  }

  function DigitValue(c: char): (v: nat)
    requires IsDigit(c)
    ensures v < 10
  {
    (c as int) - ('0' as int)
  }

  // ---------------------------------------------------------------- chomp

  /** `String#chomp` with no argument: drop one trailing "\r\n", "\n" or "\r". */
  function Chomp(s: string): (r: string)
    ensures r <= s && |s| - 2 <= |r|
    ensures |r| < |s| ==> s[|s| - 1] == '\n' || s[|s| - 1] == '\r'
  {
    if |s| >= 2 && s[|s| - 2] == '\r' && s[|s| - 1] == '\n' then s[..|s| - 2]
    else if |s| >= 1 && (s[|s| - 1] == '\n' || s[|s| - 1] == '\r') then s[..|s| - 1]
    else s
  }

  /** A line whose last character is not a line terminator. */
  predicate Unterminated(s: string) {
    |s| == 0 || (s[|s| - 1] != '\n' && s[|s| - 1] != '\r')
  }

  /** Reading a line back from a file drops the newline written after it. */
  lemma ChompNewline(s: string)
    requires Unterminated(s)
    ensures Chomp(s + "\n") == s
    ensures Chomp(s + "\r\n") == s
    ensures Chomp(s + "\r") == s
    ensures Chomp(s) == s
  {
    assert (s + "\n")[..|s|] == s;
    assert (s + "\r\n")[..|s|] == s;
    assert (s + "\r")[..|s|] == s;
  }

  // ---------------------------------------------------------------- split

  predicate TabFree(s: string) {
    forall j :: 0 <= j < |s| ==> s[j] != Tab
  }

  /** The number of tabs in `s`. */
  function TabCount(s: string): nat {
    if s == "" then 0 else (if s[0] == Tab then 1 else 0) + TabCount(s[1..])
  }

  /** The index of the first tab in `s`, or `|s|` when it has none. */
  function TabIndex(s: string): (i: nat)
    ensures i <= |s| && TabFree(s[..i])
    ensures i < |s| ==> s[i] == Tab
  {
    if s == "" then 0
    else if s[0] == Tab then 0
    else
      var i := TabIndex(s[1..]) + 1;
      assert forall j :: 1 <= j < i ==> s[..i][j] == s[1..][..i - 1][j - 1];
      i
  }

  lemma {:induction false} TabCountSplit(s: string)
    ensures TabIndex(s) < |s| ==> TabCount(s) == TabCount(s[TabIndex(s) + 1..]) + 1
    ensures TabIndex(s) == |s| ==> TabCount(s) == 0
  {
    if s != "" && s[0] != Tab {
      TabCountSplit(s[1..]);
      if TabIndex(s) < |s| {
        assert s[1..][TabIndex(s[1..]) + 1..] == s[TabIndex(s) + 1..];
      }
    }
  }

  /** The fields of a non-empty `s` split at its first `limit - 1` tabs. */
  function SplitFields(s: string, limit: nat): (fields: seq<string>)
    requires limit >= 1
    ensures 1 <= |fields| <= limit
    decreases limit
  {
    var i := TabIndex(s);
    if limit == 1 || i == |s| then [s]
    else [s[..i]] + SplitFields(s[i + 1..], limit - 1)
  }

  /**
   * `s.split(/\t/, limit)` for a positive `limit`: at most `limit` fields,
   * the last of which keeps any further tabs; trailing empty fields are kept,
   * and the empty string has no fields at all.
   */
  function SplitTabs(s: string, limit: nat): (fields: seq<string>)
    requires limit >= 1
    ensures s == "" <==> |fields| == 0
    ensures |fields| <= limit
  {
    if s == "" then [] else SplitFields(s, limit)
  }

  /** `fields.join("\t")`. */
  function JoinTabs(fields: seq<string>): string {
    if |fields| == 0 then ""
    else if |fields| == 1 then fields[0]
    else fields[0] + [Tab] + JoinTabs(fields[1..])
  }

  lemma {:induction false} JoinSplitFields(s: string, limit: nat)
    requires limit >= 1
    ensures JoinTabs(SplitFields(s, limit)) == s
    decreases limit
  {
    var i := TabIndex(s);
    if limit != 1 && i < |s| {
      var head, tail := s[..i], s[i + 1..];
      JoinSplitFields(tail, limit - 1);
      var fields := SplitFields(s, limit);
      assert fields == [head] + SplitFields(tail, limit - 1);
      JoinTabsCons(fields);
      assert fields[1..] == SplitFields(tail, limit - 1);
      JoinAtTab(s, i);
    }
  }

  lemma JoinAtTab(s: string, i: nat)
    requires i < |s| && s[i] == Tab
    ensures s[..i] + [Tab] + s[i + 1..] == s
  {
    assert s == s[..i] + [s[i]] + s[i + 1..];
  }

  /** Splitting loses nothing: joining the fields with tabs gives back the line. */
  lemma SplitJoinsBack(s: string, limit: nat)
    requires limit >= 1
    ensures JoinTabs(SplitTabs(s, limit)) == s
  {
    if s != "" {
      JoinSplitFields(s, limit);
    }
  }

  lemma {:induction false} SplitFieldsCount(s: string, limit: nat)
    requires limit >= 1
    ensures |SplitFields(s, limit)| == if TabCount(s) + 1 < limit then TabCount(s) + 1 else limit
    decreases limit
  {
    TabCountSplit(s);
    var i := TabIndex(s);
    if limit > 1 && i < |s| {
      SplitFieldsCount(s[i + 1..], limit - 1);
    }
  }

  /** Fields that a split could have produced: tab-free, except that the last may hold tabs when the limit is reached. */
  predicate Splittable(fields: seq<string>, limit: nat)
    decreases |fields|
  {
    && 1 <= |fields| <= limit
    && (if |fields| == 1 then limit > 1 ==> TabFree(fields[0])
        else TabFree(fields[0]) && Splittable(fields[1..], limit - 1))
  }

  /** Fields free of tabs, joined and split again, come back unchanged. */
  lemma {:induction false} SplitOfJoin(fields: seq<string>, limit: nat)
    requires Splittable(fields, limit)
    ensures SplitFields(JoinTabs(fields), limit) == fields
    decreases limit
  {
    if |fields| == 1 {
      SplitOfOneField(fields[0], limit);
      assert fields == [fields[0]];
    } else {
      var f := fields[0];
      var tail := fields[1..];
      assert fields == [f] + tail;
      var rest := JoinTabs(tail);
      JoinTabsCons(fields);
      SplitAfterTab(f, rest, limit);
      SplitOfJoin(tail, limit - 1);
    }
  }

  lemma JoinTabsCons(fields: seq<string>)
    requires |fields| > 1
    ensures JoinTabs(fields) == fields[0] + [Tab] + JoinTabs(fields[1..])
  {
  }

  lemma SplitAfterTab(f: string, rest: string, limit: nat)
    requires limit > 1 && TabFree(f)
    ensures SplitFields(f + [Tab] + rest, limit) == [f] + SplitFields(rest, limit - 1)
  {
    var s := f + [Tab] + rest;
    TabIndexAfter(f, rest);
    assert s[..|f|] == f && s[|f| + 1..] == rest;
  }

  lemma SplitOfOneField(f: string, limit: nat)
    requires limit >= 1 && (limit > 1 ==> TabFree(f))
    ensures SplitFields(f, limit) == [f]
  {
    if limit != 1 {
      TabFreeIndex(f);
    }
  }

  lemma {:induction false} TabFreeIndex(s: string)
    requires TabFree(s)
    ensures TabIndex(s) == |s|
  {
    if s != "" {
      assert TabFree(s[1..]) by {
        assert forall j :: 0 <= j < |s| - 1 ==> s[1..][j] == s[j + 1];
      }
      TabFreeIndex(s[1..]);
    }
  }

  lemma {:induction false} TabIndexAfter(f: string, rest: string)
    requires TabFree(f)
    ensures TabIndex(f + [Tab] + rest) == |f|
  {
    var s := f + [Tab] + rest;
    if f != "" {
      assert s[1..] == f[1..] + [Tab] + rest;
      assert TabFree(f[1..]) by {
        assert forall j :: 0 <= j < |f| - 1 ==> f[1..][j] == f[j + 1];
      }
      TabIndexAfter(f[1..], rest);
    }
  }

  // ---------------------------------------------------------------- intify

  /** `str.gsub!(/\A0+/, '')`: drop every leading '0'. */
  function StripLeadingZeros(s: string): (r: string)
    ensures r == "" || r[0] != '0'
    ensures |r| <= |s| && r == s[|s| - |r|..]
    ensures forall i :: 0 <= i < |s| - |r| ==> s[i] == '0'
  {
    if |s| > 0 && s[0] == '0' then StripLeadingZeros(s[1..]) else s
  }

  /** The longest prefix of `s` made of decimal digits. */
  function LeadingDigits(s: string): (d: string)
    ensures AllDigits(d)
    ensures d <= s && (|d| < |s| ==> !IsDigit(s[|d|]))
  {
    if |s| > 0 && IsDigit(s[0]) then [s[0]] + LeadingDigits(s[1..]) else ""
  }

  /** The value of a string of decimal digits, most significant first. */
  function DecimalValue(d: string): nat
    requires AllDigits(d)
  {
    if d == "" then 0 else DecimalValue(d[..|d| - 1]) * 10 + DigitValue(d[|d| - 1])
  }

  /** `String#to_i` on a string that starts with its digits. */
  function ToI(s: string): nat {
    DecimalValue(LeadingDigits(s))
  }

  /** `intify`: strip leading zeros, then `to_i`. */
  function Intify(s: string): nat {
    ToI(StripLeadingZeros(s))
  }

  function Zeros(k: nat): (z: string)
    ensures |z| == k && AllDigits(z)
    ensures forall i :: 0 <= i < k ==> z[i] == '0'
  {
    if k == 0 then "" else "0" + Zeros(k - 1)
  }

  lemma {:induction false} DecimalValueLeadingZero(d: string)
    requires AllDigits(d)
    ensures AllDigits("0" + d) && DecimalValue("0" + d) == DecimalValue(d)
  {
    if d != "" {
      assert ("0" + d)[..|d|] == "0" + d[..|d| - 1];
      DecimalValueLeadingZero(d[..|d| - 1]);
    }
  }

  lemma ToILeadingZero(s: string)
    ensures ToI("0" + s) == ToI(s)
  {
    assert ("0" + s)[1..] == s;
    assert LeadingDigits("0" + s) == "0" + LeadingDigits(s);
    DecimalValueLeadingZero(LeadingDigits(s));
  }

  /** Stripping the zeros first changes nothing about the value `to_i` reads. */
  lemma {:induction false} IntifyIsToI(s: string)
    ensures Intify(s) == ToI(s)
  {
    if |s| > 0 && s[0] == '0' {
      var t := s[1..];
      assert Intify(s) == Intify(t);
      IntifyIsToI(t);
      ToIDropZero(s);
    }
  }

  lemma ToIDropZero(s: string)
    requires |s| > 0 && s[0] == '0'
    ensures ToI(s) == ToI(s[1..])
  {
    assert s == "0" + s[1..];
    ToILeadingZero(s[1..]);
  }

  /** However many zeros pad a recid column, `intify` reads the same number. */
  lemma ZeroPaddingIrrelevant(k: nat, s: string)
    ensures Intify(Zeros(k) + s) == Intify(s)
  {
    ZeroPaddingToI(k, s);
    IntifyIsToI(Zeros(k) + s);
    IntifyIsToI(s);
  }

  lemma {:induction false} ZeroPaddingToI(k: nat, s: string)
    ensures ToI(Zeros(k) + s) == ToI(s)
  {
    if k > 0 {
      var t := Zeros(k - 1) + s;
      assert Zeros(k) + s == "0" + t;
      ToILeadingZero(t);
      ZeroPaddingToI(k - 1, s);
    } else {
      assert Zeros(k) + s == s;
    }
  }

  lemma DecimalSnoc(d: string, c: char)
    requires AllDigits(d) && IsDigit(c)
    ensures AllDigits(d + [c]) && DecimalValue(d + [c]) == DecimalValue(d) * 10 + DigitValue(c)
  {
    assert (d + [c])[..|d|] == d;
  }

  lemma {:induction false} LeadingDigitsOfDigits(s: string)
    requires AllDigits(s)
    ensures LeadingDigits(s) == s
  {
    if s != "" {
      LeadingDigitsOfDigits(s[1..]);
      assert s == [s[0]] + s[1..];
    }
  }

  lemma IntifyExamples()
    ensures Intify("007") == 7
    ensures Intify("000") == 0
  {
    StripOf007();
    LeadingDigitsOfDigits("7");
    DecimalSnoc("", '7');
    assert "" + ['7'] == "7";
    StripOf000();
  }

  lemma StripOf007()
    ensures StripLeadingZeros("007") == "7"
  {
    assert "007"[1..] == "07" && "07"[1..] == "7";
  }

  lemma StripOf000()
    ensures StripLeadingZeros("000") == ""
  {
    assert "000"[1..] == "00" && "00"[1..] == "0" && "0"[1..] == "";
  }

  // ---------------------------------------------------------------- ids_from_line

  /**
   * `ids_from_line`: column 0 is the htid and `intify` of column 3 is the
   * recid, the line being split into at most four fields.  A line with fewer
   * than four fields makes `intify` raise on the missing column, and
   * `add_hathifile_line_by_date` then skips it: `None`.
   */
  function IdsFromLine(line: string): (r: Option<(string, int)>)
    ensures r.None? <==> TabCount(Chomp(line)) < 3
  {
    var chomped := Chomp(line);
    SplitFieldsCount(chomped, 4);
    var fields := SplitTabs(chomped, 4);
    if |fields| < 4 then None else Some((fields[0], Intify(fields[3])))
  }

  lemma FourFieldsSplittable(htid: string, c1: string, c2: string, rest: string)
    requires TabFree(htid) && TabFree(c1) && TabFree(c2)
    ensures Splittable([htid, c1, c2, rest], 4)
  {
    assert Splittable([rest], 1);
    assert Splittable([c2, rest], 2) by {
      assert [c2, rest][1..] == [rest];
    }
    assert Splittable([c1, c2, rest], 3) by {
      assert [c1, c2, rest][1..] == [c2, rest];
    }
    assert [htid, c1, c2, rest][1..] == [c1, c2, rest];
  }

  /**
   * A hathifile line, its columns joined by tabs, yields its first column
   * and `intify` of everything from the fourth column on.
   */
  lemma IdsFromHathifileLine(htid: string, c1: string, c2: string, rest: string)
    requires TabFree(htid) && TabFree(c1) && TabFree(c2)
    requires Unterminated(rest)
    ensures IdsFromLine(htid + "\t" + c1 + "\t" + c2 + "\t" + rest) == Some((htid, Intify(rest)))
    ensures IdsFromLine(htid + "\t" + c1 + "\t" + c2 + "\t" + rest + "\n") == Some((htid, Intify(rest)))
  {
    var line := htid + "\t" + c1 + "\t" + c2 + "\t" + rest;
    var fields := [htid, c1, c2, rest];
    assert JoinTabs(fields) == line by {
      assert JoinTabs([rest]) == rest;
      assert JoinTabs([c2, rest]) == c2 + [Tab] + rest by {
        assert [c2, rest][1..] == [rest];
      }
      assert JoinTabs([c1, c2, rest]) == c1 + [Tab] + c2 + [Tab] + rest by {
        assert [c1, c2, rest][1..] == [c2, rest];
      }
      assert fields[1..] == [c1, c2, rest];
    }
    FourFieldsSplittable(htid, c1, c2, rest);
    SplitOfJoin(fields, 4);
    assert Unterminated(line);
    ChompNewline(line);
  }

  // ---------------------------------------------------------------- yyyymm_from_filename

  /** `filename.gsub(/\D/, '')`: keep the decimal digits, in order. */
  function DigitsOnly(s: string): (d: string)
    ensures AllDigits(d)
  {
    if s == "" then ""
    else if IsDigit(s[0]) then [s[0]] + DigitsOnly(s[1..])
    else DigitsOnly(s[1..])
  }

  /** `str[0..-3]`: all but the last two characters, empty for fewer than three. */
  function DropLastTwo(s: string): (r: string)
    ensures r <= s
    ensures |r| == if |s| <= 2 then 0 else |s| - 2
  {
    if |s| <= 2 then "" else s[..|s| - 2]
  }

  datatype ParseError = InvalidInteger

  /** The value of a string of octal digits, most significant first. */
  function OctalValue(d: string): nat
    requires forall i :: 0 <= i < |d| ==> '0' <= d[i] <= '7'
  {
    if d == "" then 0 else OctalValue(d[..|d| - 1]) * 8 + ((d[|d| - 1] as int) - ('0' as int))
  }

  /**
   * `Kernel#Integer` of a string of decimal digits: empty is an error, and a
   * leading '0' followed by more digits means octal, where '8' and '9' are errors.
   */
  function IntegerOf(d: string): (r: Result<nat, ParseError>)
    requires AllDigits(d)
    ensures r.Failure? <==> d == "" || (|d| > 1 && d[0] == '0' && exists i :: 1 <= i < |d| && d[i] >= '8')
    ensures d != "" && d[0] != '0' ==> r == Success(DecimalValue(d))
  {
    if d == "" then Failure(InvalidInteger)
    else if |d| > 1 && d[0] == '0' then
      if forall i :: 0 <= i < |d[1..]| ==> '0' <= d[1..][i] <= '7' then Success(OctalValue(d[1..]))
      else
        assert exists i :: 0 <= i < |d[1..]| && d[1..][i] >= '8';
        Failure(InvalidInteger)
    else Success(DecimalValue(d))
  }

  /** `yyyymm_from_filename`: the digits of the name without the last two (the day), as an Integer. */
  function YyyymmFromFilename(filename: string): Result<nat, ParseError> {
    IntegerOf(DropLastTwo(DigitsOnly(filename)))
  }

  predicate DigitFree(s: string) {
    forall i :: 0 <= i < |s| ==> !IsDigit(s[i])
  }

  lemma {:induction false} DigitsOnlyOfDigitFree(s: string)
    requires DigitFree(s)
    ensures DigitsOnly(s) == ""
  {
    if s != "" {
      DigitsOnlyOfDigitFree(s[1..]);
    }
  }

  lemma {:induction false} DigitsOnlyOfDigits(s: string)
    requires AllDigits(s)
    ensures DigitsOnly(s) == s
  {
    if s != "" {
      DigitsOnlyOfDigits(s[1..]);
    }
  }

  lemma {:induction false} DigitsOnlyAppend(a: string, b: string)
    ensures DigitsOnly(a + b) == DigitsOnly(a) + DigitsOnly(b)
  {
    if a != "" {
      assert (a + b)[0] == a[0];
      assert (a + b)[1..] == a[1..] + b;
      DigitsOnlyAppend(a[1..], b);
    } else {
      assert a + b == b;
    }
  }

  /**
   * A hathifile name `prefix + yyyymmdd + suffix`, with no digits around the
   * date and a date not starting with 0, gives the date without its day.
   */
  lemma YyyymmFromHathifileName(prefix: string, date: string, suffix: string)
    requires DigitFree(prefix) && DigitFree(suffix)
    requires AllDigits(date) && |date| >= 3 && date[0] != '0'
    ensures YyyymmFromFilename(prefix + date + suffix) == Success(DecimalValue(date[..|date| - 2]))
  {
    DigitsOnlyAppend(prefix + date, suffix);
    DigitsOnlyAppend(prefix, date);
    DigitsOnlyOfDigitFree(prefix);
    DigitsOnlyOfDigitFree(suffix);
    DigitsOnlyOfDigits(date);
    assert DigitsOnly(prefix + date + suffix) == date;
  }

  /** The monthly file of January 2023 is a load of month 202301. */
  lemma YyyymmExample()
    ensures YyyymmFromFilename("hathi_full_20230101.txt.gz") == Success(202301)
  {
    var prefix, date, suffix := "hathi_full_", "20230101", ".txt.gz";
    assert "hathi_full_20230101.txt.gz" == prefix + date + suffix;
    assert DigitFree(prefix) && DigitFree(suffix) && AllDigits(date);
    YyyymmFromHathifileName(prefix, date, suffix);
    assert date[..|date| - 2] == "202301";
    DecimalOf202301();
  }

  lemma DecimalOf202301()
    ensures AllDigits("202301") && DecimalValue("202301") == 202301
  {
    DecimalSnoc("", '2');
    assert "" + ['2'] == "2";
    DecimalSnoc("2", '0');
    assert "2" + ['0'] == "20";
    DecimalSnoc("20", '2');
    assert "20" + ['2'] == "202";
    DecimalSnoc("202", '3');
    assert "202" + ['3'] == "2023";
    DecimalSnoc("2023", '0');
    assert "2023" + ['0'] == "20230";
    DecimalSnoc("20230", '1');
    assert "20230" + ['1'] == "202301";
  }
}

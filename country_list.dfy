/**
 * The phone-country table: a text of `code;id;name` lines scanned into
 * records, and the dictionary from code to (id, name) built from them. The
 * text is taken as a parameter instead of being read from the bundle.
 */
module CountryList {
  import opened Wrappers
  import opened Text

  datatype CountryRecord = CountryRecord(code: int, id: string, name: string)

  /**
   * The line break that ends a name starting at `from`: the earlier of the
   * first `"\r\n"` and the first `"\n"`, as (start of the break, position
   * after it).
   */
  function NameRange(data: string, from: nat): (r: Option<(nat, nat)>)
    ensures r.Some? ==> from <= r.value.0 < r.value.1 <= |data| && data[r.value.1 - 1] == '\n'
  {
    var nameRange1 := IndexOfCrLf(data, from);
    var nameRange2 := IndexOf(data, '\n', from);
    assert nameRange1.Some? ==> data[nameRange1.value + 1] == '\n' by {
      IndexOfCrLfSound(data, from);
    }
    assert nameRange2.Some? ==> data[nameRange2.value] == '\n' by {
      IndexOfSound(data, '\n', from);
    }
    if nameRange1.Some? && nameRange2.Some? then
      if nameRange1.value < nameRange2.value then Some((nameRange1.value, nameRange1.value + 2))
      else Some((nameRange2.value, nameRange2.value + 1))
    else if nameRange1.Some? then Some((nameRange1.value, nameRange1.value + 2))
    else if nameRange2.Some? then Some((nameRange2.value, nameRange2.value + 1))
    else None
  }

  /**
   * A name ends at the first line feed after it; when a carriage return
   * directly precedes that line feed (inside the name's text), the carriage
   * return belongs to the line break and not to the name.
   */
  lemma NameEndsAtFirstLineBreak(data: string, from: nat)
    ensures NameRange(data, from).None? <==> IndexOf(data, '\n', from).None?
    ensures IndexOf(data, '\n', from).Some? ==>
      var p := IndexOf(data, '\n', from).value;
      NameRange(data, from) == Some((if from < p && data[p - 1] == '\r' then p - 1 else p, p + 1))
  {
    var r1 := IndexOfCrLf(data, from);
    var r2 := IndexOf(data, '\n', from);
    IndexOfCrLfSound(data, from);
    IndexOfSound(data, '\n', from);
    if r1.Some? {
      var q := r1.value;
      assert data[q + 1] == '\n';
      assert r2.Some?;
      var p := r2.value;
      assert p <= q + 1;
      if p != q + 1 {
        assert p < q;
        if from < p && data[p - 1] == '\r' {
          assert CrLfAt(data, p - 1);
          assert false;
        }
      }
    } else if r2.Some? {
      var p := r2.value;
      if from < p && data[p - 1] == '\r' {
        assert CrLfAt(data, p - 1);
        assert false;
      }
    }
  }

  /** What one pass of the scanning loop finds at `loc`. */
  datatype Step =
    | Halt                                                  // a guard broke out of the loop
    | Line(record: CountryRecord, next: nat)               // a record ended by a line break
    | Unterminated(code: int, id: string, nameStart: nat)  // the last line, with no line break after it

  function StepAt(data: string, loc: nat): (s: Step)
    requires loc <= |data|
    ensures s.Line? ==> loc < s.next <= |data| && data[s.next - 1] == '\n'
    ensures s.Unterminated? ==> loc < s.nameStart <= |data|
  {
    var codeRange := IndexOf(data, ';', loc);
    if codeRange.None? then Halt else StepAfterCode(data, loc, codeRange.value)
  }

  /** The rest of a pass once the code's `;` is found at `codeEnd`. */
  function StepAfterCode(data: string, loc: nat, codeEnd: nat): (s: Step)
    requires loc <= codeEnd < |data|
    ensures s.Line? ==> loc < s.next <= |data| && data[s.next - 1] == '\n'
    ensures s.Unterminated? ==> loc < s.nameStart <= |data|
  {
    var code := ParseInt(data[loc..codeEnd]);
    if code.None? then Halt
    else
      var idRange := IndexOf(data, ';', codeEnd + 1);
      if idRange.None? then Halt else StepAfterId(data, code.value, codeEnd, idRange.value)
  }

  /** The rest of a pass once the id's `;` is found at `idEnd`. */
  function StepAfterId(data: string, code: int, codeEnd: nat, idEnd: nat): (s: Step)
    requires codeEnd < idEnd < |data|
    ensures s.Line? ==> codeEnd < s.next <= |data| && data[s.next - 1] == '\n'
    ensures s.Unterminated? ==> codeEnd < s.nameStart <= |data|
  {
    var id := data[codeEnd + 1..idEnd];
    var nameRange := NameRange(data, idEnd + 1);
    if nameRange.Some? then Line(CountryRecord(code, id, data[idEnd + 1..nameRange.value.0]), nameRange.value.1)
    else Unterminated(code, id, idEnd + 1)
  }

  /** The outcome of the scan: the records, or a runtime trap. */
  datatype LoadResult = Loaded(records: seq<CountryRecord>) | Trapped

  function Prepend(rs: seq<CountryRecord>, r: LoadResult): LoadResult {
    match r
    case Loaded(tail) => Loaded(rs + tail)
    case Trapped => Trapped
  }

  /**
   * The last line as written: its name is taken up to one character before
   * the end of the text; when that position lies before the name's start the
   * range `lowerBound ..< upperBound` is malformed and Swift traps.
   */
  function LastLineAsWritten(data: string, code: int, id: string, nameStart: nat): (r: LoadResult)
    requires nameStart <= |data|
    ensures r.Trapped? <==> nameStart == |data|
    ensures r.Loaded? ==>
      && |r.records| == 1 && r.records[0].code == code && r.records[0].id == id
      && |r.records[0].name| == |data| - nameStart - 1
  {
    if nameStart <= |data| - 1 then Loaded([CountryRecord(code, id, data[nameStart..|data| - 1])])
    else Trapped
  }

  /** The records the loop collects from `loc` on, as the code is written; each record uses up at least one character. */
  function ScanFrom(data: string, loc: nat): (r: LoadResult)
    requires loc <= |data|
    ensures r.Loaded? ==> |r.records| <= |data| - loc
    decreases |data| - loc
  {
    match StepAt(data, loc)
    case Halt => Loaded([])
    case Line(record, next) => Prepend([record], ScanFrom(data, next))
    case Unterminated(code, id, nameStart) => LastLineAsWritten(data, code, id, nameStart)
  }

  /** The records the loop collects from `loc` on, with the last line's name running to the end of the text. */
  function ScanFromCorrected(data: string, loc: nat): seq<CountryRecord>
    requires loc <= |data|
    decreases |data| - loc
  {
    match StepAt(data, loc)
    case Halt => []
    case Line(record, next) => [record] + ScanFromCorrected(data, next)
    case Unterminated(code, id, nameStart) => [CountryRecord(code, id, data[nameStart..])]
  }

  /**
   * The parse loop of `loadCountriesInfo`: for each line find the code's
   * `;`, parse the code, find the id's `;` and end the name at the first
   * line break, append the record, and stop at the first guard that fails
   * or after the last line.
   */
  method LoadCountriesInfo(data: string) returns (result: LoadResult)
    ensures result == ScanFrom(data, 0)
  {
    ghost var whole := ScanFrom(data, 0);
    var records: seq<CountryRecord> := [];
    var currentLocation: nat := 0;
    while true
      invariant currentLocation <= |data|
      invariant whole == Prepend(records, ScanFrom(data, currentLocation))
      decreases |data| - currentLocation
    {
      var codeRange := IndexOf(data, ';', currentLocation);
      if codeRange.None? {
        NoCodeDelimiterHalts(data, currentLocation);
        break;
      }
      var codeEnd := codeRange.value;
      var countryCode := ParseInt(data[currentLocation..codeEnd]);
      if countryCode.None? {
        CodeNotIntegerHalts(data, currentLocation, codeEnd);
        break;
      }
      var code := countryCode.value;
      var idRange := IndexOf(data, ';', codeEnd + 1);
      if idRange.None? {
        NoIdDelimiterHalts(data, currentLocation, codeEnd, code);
        break;
      }
      var idEnd := idRange.value;
      ScanThroughGuards(data, currentLocation, codeEnd, code, idEnd);
      var countryId := data[codeEnd + 1..idEnd];
      var nameRange := NameRange(data, idEnd + 1);
      var countryName: string;
      if nameRange.Some? {
        countryName := data[idEnd + 1..nameRange.value.0];
        currentLocation := nameRange.value.1;
      } else {
        if |data| - 1 < idEnd + 1 {
          result := Trapped;
          return;
        }
        countryName := data[idEnd + 1..|data| - 1];
      }
      var record := CountryRecord(code, countryId, countryName);
      if nameRange.Some? {
        PrependTwice(records, record, ScanFrom(data, currentLocation));
      }
      records := records + [record];
      if nameRange.None? {
        break;
      }
    }
    assert records + [] == records;
    result := Loaded(records);
  }

  /**
   * Once the code's `;`, the code and the id's `;` are found, the scan from
   * `loc` is the line's record followed by the scan after its line break, or
   * the last line as written.
   */
  lemma ScanThroughGuards(data: string, loc: nat, codeEnd: nat, code: int, idEnd: nat)
    requires loc <= codeEnd < |data| && IndexOf(data, ';', loc) == Some(codeEnd)
    requires ParseInt(data[loc..codeEnd]) == Some(code)
    requires IndexOf(data, ';', codeEnd + 1) == Some(idEnd)
    ensures codeEnd < idEnd < |data|
    ensures NameRange(data, idEnd + 1).Some? ==>
      var (nameEnd, next) := NameRange(data, idEnd + 1).value;
      ScanFrom(data, loc)
      == Prepend([CountryRecord(code, data[codeEnd + 1..idEnd], data[idEnd + 1..nameEnd])], ScanFrom(data, next))
    ensures NameRange(data, idEnd + 1).None? ==>
      ScanFrom(data, loc) == LastLineAsWritten(data, code, data[codeEnd + 1..idEnd], idEnd + 1)
  {
    assert StepAt(data, loc) == StepAfterId(data, code, codeEnd, idEnd);
    match NameRange(data, idEnd + 1)
    case Some((nameEnd, next)) =>
      StepAfterIdFound(data, code, codeEnd, idEnd, nameEnd, next);
    case None =>
      StepAfterIdMissing(data, code, codeEnd, idEnd);
  }

  /** Without a `;` after `loc`, the scan ends. */
  lemma NoCodeDelimiterHalts(data: string, loc: nat)
    requires loc <= |data| && IndexOf(data, ';', loc).None?
    ensures ScanFrom(data, loc) == Loaded([])
  {
  }

  /** When the text before the first `;` is not an integer, the scan ends. */
  lemma CodeNotIntegerHalts(data: string, loc: nat, codeEnd: nat)
    requires loc <= codeEnd < |data| && IndexOf(data, ';', loc) == Some(codeEnd)
    requires ParseInt(data[loc..codeEnd]).None?
    ensures ScanFrom(data, loc) == Loaded([])
  {
  }

  /** Without a second `;` after the code, the scan ends. */
  lemma NoIdDelimiterHalts(data: string, loc: nat, codeEnd: nat, code: int)
    requires loc <= codeEnd < |data| && IndexOf(data, ';', loc) == Some(codeEnd)
    requires ParseInt(data[loc..codeEnd]) == Some(code)
    requires IndexOf(data, ';', codeEnd + 1).None?
    ensures ScanFrom(data, loc) == Loaded([])
  {
  }

  lemma PrependTwice(rs: seq<CountryRecord>, r: CountryRecord, tail: LoadResult)
    ensures Prepend(rs, Prepend([r], tail)) == Prepend(rs + [r], tail)
  {
    if tail.Loaded? {
      assert rs + ([r] + tail.records) == (rs + [r]) + tail.records;
    }
  }

  /**
   * A blank line stops the scan: the code text would run from the line feed
   * to the next `;`, and text holding a line feed is not an integer.
   */
  lemma BlankLineStops(data: string, loc: nat)
    requires loc < |data| && data[loc] == '\n'
    ensures StepAt(data, loc) == Halt
    ensures ScanFrom(data, loc) == Loaded([]) && ScanFromCorrected(data, loc) == []
  {
    var codeRange := IndexOf(data, ';', loc);
    IndexOfSound(data, ';', loc);
    if codeRange.Some? {
      var text := data[loc..codeRange.value];
      assert text[0] == '\n';
      if ParseInt(text).Some? {
        ParsedHasNo(text, '\n');
      }
    }
  }

  /** Number of line feeds in a text. */
  function LineFeeds(s: string): nat {
    if s == [] then 0 else LineFeeds(s[..|s| - 1]) + (if s[|s| - 1] == '\n' then 1 else 0)
  }

  lemma {:induction false} LineFeedsConcat(a: string, b: string)
    ensures LineFeeds(a + b) == LineFeeds(a) + LineFeeds(b)
    decreases |b|
  {
    if b == [] {
      assert a + b == a;
    } else {
      assert (a + b)[..|a + b| - 1] == a + b[..|b| - 1];
      LineFeedsConcat(a, b[..|b| - 1]);
    }
  }

  /** A stretch ending in a line feed has one more line feed than what follows it. */
  lemma LineFeedsAcrossLine(data: string, loc: nat, next: nat)
    requires loc < next <= |data| && data[next - 1] == '\n'
    ensures LineFeeds(data[loc..]) >= LineFeeds(data[next..]) + 1
  {
    var line := data[loc..next];
    assert data[loc..] == line + data[next..];
    LineFeedsConcat(line, data[next..]);
    assert line[..|line| - 1] + [data[next - 1]] == line;
    LineFeedsConcat(line[..|line| - 1], [data[next - 1]]);
    assert LineFeeds([data[next - 1]]) == 1 by {
      assert [data[next - 1]][..0] == [];
    }
  }

  /** The scan yields at most one record per line: no more records than line feeds, plus one for an unterminated last line. */
  lemma {:induction false} AtMostOneRecordPerLine(data: string, loc: nat)
    requires loc <= |data|
    ensures ScanFrom(data, loc).Loaded? ==> |ScanFrom(data, loc).records| <= LineFeeds(data[loc..]) + 1
    ensures |ScanFromCorrected(data, loc)| <= LineFeeds(data[loc..]) + 1
    decreases |data| - loc
  {
    var step := StepAt(data, loc);
    if step.Line? {
      AtMostOneRecordPerLine(data, step.next);
      LineFeedsAcrossLine(data, loc, step.next);
    }
  }

  /** Empty input yields no records. */
  lemma EmptyInputYieldsNothing()
    ensures ScanFrom([], 0) == Loaded([]) && ScanFromCorrected([], 0) == []
  {
  }

  /** A record that formats as one line and reads back unchanged. */
  predicate WellFormed(r: CountryRecord) {
    && 0 <= r.code <= Int64Max
    && (forall i :: 0 <= i < |r.id| ==> r.id[i] != ';')
    && (forall i :: 0 <= i < |r.name| ==> r.name[i] != '\n')
    && (r.name == [] || r.name[|r.name| - 1] != '\r')
  }

  predicate WellFormedTable(rs: seq<CountryRecord>) {
    forall i :: 0 <= i < |rs| ==> WellFormed(rs[i])
  }

  /** `code;id;name`, without a line break. */
  function FormatLine(r: CountryRecord): string
    requires 0 <= r.code
  {
    DecimalString(r.code) + ";" + r.id + ";" + r.name
  }

  /** Records as a text of lines, each ended by a line feed. */
  function Format(rs: seq<CountryRecord>): string
    requires WellFormedTable(rs)
  {
    if rs == [] then [] else FormatLine(rs[0]) + "\n" + Format(rs[1..])
  }

  /** Records as a text of lines separated by line feeds, the last one unterminated. */
  function FormatUnterminated(rs: seq<CountryRecord>): string
    requires rs != [] && WellFormedTable(rs)
  {
    if |rs| == 1 then FormatLine(rs[0]) else FormatLine(rs[0]) + "\n" + FormatUnterminated(rs[1..])
  }

  /** A code in decimal and an id, each followed by `;`, are found by the first two searches for `;`. */
  lemma CodeAndIdFound(data: string, loc: nat, code: nat, id: string)
    requires code <= Int64Max && forall k :: 0 <= k < |id| ==> id[k] != ';'
    requires var codeEnd := loc + |DecimalString(code)|;
      var idEnd := codeEnd + 1 + |id|;
      && idEnd < |data|
      && data[loc..codeEnd] == DecimalString(code) && data[codeEnd] == ';'
      && data[codeEnd + 1..idEnd] == id && data[idEnd] == ';'
    ensures var codeEnd := loc + |DecimalString(code)|;
      var idEnd := codeEnd + 1 + |id|;
      && IndexOf(data, ';', loc) == Some(codeEnd)
      && ParseInt(data[loc..codeEnd]) == Some(code)
      && IndexOf(data, ';', codeEnd + 1) == Some(idEnd)
  {
    var c := DecimalString(code);
    var codeEnd := loc + |c|;
    var idEnd := codeEnd + 1 + |id|;
    AbsentFromSlice(data, loc, codeEnd, c, ';');
    IndexOfAt(data, ';', loc, codeEnd);
    ParseDecimalString(code);
    AbsentFromSlice(data, codeEnd + 1, idEnd, id, ';');
    IndexOfAt(data, ';', codeEnd + 1, idEnd);
  }

  /** A stretch equal to `x + y` is a stretch equal to `x` followed by one equal to `y`. */
  lemma SplitStretch(s: string, lo: nat, hi: nat, x: string, y: string)
    requires lo <= hi <= |s| && s[lo..hi] == x + y
    ensures lo + |x| <= hi && s[lo..lo + |x|] == x && s[lo + |x|..hi] == y
  {
    assert s[lo..lo + |x|] == s[lo..hi][..|x|];
    assert s[lo + |x|..hi] == s[lo..hi][|x|..];
  }

  /** Where the parts of `code;id;name` laid out at `loc` sit in the text. */
  lemma LineParts(data: string, loc: nat, code: string, id: string, name: string)
    requires loc + |code| + 1 + |id| + 1 + |name| <= |data|
    requires data[loc..loc + |code| + 1 + |id| + 1 + |name|] == code + ([';'] + (id + ([';'] + name)))
    ensures var codeEnd := loc + |code|;
      var idEnd := codeEnd + 1 + |id|;
      && data[loc..codeEnd] == code && data[codeEnd] == ';'
      && data[codeEnd + 1..idEnd] == id && data[idEnd] == ';'
      && data[idEnd + 1..idEnd + 1 + |name|] == name
  {
    var codeEnd := loc + |code|;
    var idEnd := codeEnd + 1 + |id|;
    var end := idEnd + 1 + |name|;
    SplitStretch(data, loc, end, code, [';'] + (id + ([';'] + name)));
    SplitStretch(data, codeEnd, end, [';'], id + ([';'] + name));
    assert data[codeEnd] == data[codeEnd..codeEnd + 1][0];
    SplitStretch(data, codeEnd + 1, end, id, [';'] + name);
    SplitStretch(data, idEnd, end, [';'], name);
    assert data[idEnd] == data[idEnd..idEnd + 1][0];
  }

  /** Where the code, the two `;`, the id and the name of a formatted line at `loc` sit in the text. */
  lemma LinePartsAt(data: string, loc: nat, r: CountryRecord)
    requires 0 <= r.code && loc + |FormatLine(r)| <= |data|
    requires data[loc..loc + |FormatLine(r)|] == FormatLine(r)
    ensures var codeEnd := loc + |DecimalString(r.code)|;
      var idEnd := codeEnd + 1 + |r.id|;
      && idEnd + 1 + |r.name| == loc + |FormatLine(r)|
      && data[loc..codeEnd] == DecimalString(r.code) && data[codeEnd] == ';'
      && data[codeEnd + 1..idEnd] == r.id && data[idEnd] == ';'
      && data[idEnd + 1..loc + |FormatLine(r)|] == r.name
  {
    assert FormatLine(r) == DecimalString(r.code) + ([';'] + (r.id + ([';'] + r.name)));
    LineParts(data, loc, DecimalString(r.code), r.id, r.name);
  }

  /** A name free of line feeds and not ending in a carriage return, followed by a line feed, ends at that line feed. */
  lemma NameThenBreak(data: string, start: nat, name: string)
    requires start + |name| < |data| && data[start..start + |name|] == name && data[start + |name|] == '\n'
    requires forall k :: 0 <= k < |name| ==> name[k] != '\n'
    requires name == [] || name[|name| - 1] != '\r'
    ensures NameRange(data, start) == Some((start + |name|, start + |name| + 1))
  {
    var p := start + |name|;
    AbsentFromSlice(data, start, p, name, '\n');
    IndexOfAt(data, '\n', start, p);
    NameEndsAtFirstLineBreak(data, start);
    if start < p {
      assert data[p - 1] == name[|name| - 1];
    }
  }

  /** A name free of line feeds that runs to the end of the text has no line break after it. */
  lemma NameToEnd(data: string, start: nat)
    requires start <= |data| && forall k :: 0 <= k < |data[start..]| ==> data[start..][k] != '\n'
    ensures NameRange(data, start) == None
  {
    AbsentFromSlice(data, start, |data|, data[start..], '\n');
    IndexOfNone(data, '\n', start);
    NameEndsAtFirstLineBreak(data, start);
  }

  /** Once the code and the id are found, the pass is decided by what follows the id. */
  lemma StepFromParts(data: string, loc: nat, codeEnd: nat, idEnd: nat, code: int)
    requires loc <= codeEnd < idEnd < |data|
    requires IndexOf(data, ';', loc) == Some(codeEnd) && ParseInt(data[loc..codeEnd]) == Some(code)
    requires IndexOf(data, ';', codeEnd + 1) == Some(idEnd)
    ensures StepAt(data, loc) == StepAfterId(data, code, codeEnd, idEnd)
  {
  }

  /** A line break after the name ends the line there. */
  lemma StepAfterIdFound(data: string, code: int, codeEnd: nat, idEnd: nat, nameEnd: nat, next: nat)
    requires codeEnd < idEnd < |data| && NameRange(data, idEnd + 1) == Some((nameEnd, next))
    ensures StepAfterId(data, code, codeEnd, idEnd)
         == Line(CountryRecord(code, data[codeEnd + 1..idEnd], data[idEnd + 1..nameEnd]), next)
  {
  }

  /** Without a line break after the name, the line is the unterminated last one. */
  lemma StepAfterIdMissing(data: string, code: int, codeEnd: nat, idEnd: nat)
    requires codeEnd < idEnd < |data| && NameRange(data, idEnd + 1) == None
    ensures StepAfterId(data, code, codeEnd, idEnd) == Unterminated(code, data[codeEnd + 1..idEnd], idEnd + 1)
  {
  }

  /** After the id's `;`, a name followed by a line feed ends the line with that name. */
  lemma TerminatedNameAfterId(data: string, codeEnd: nat, idEnd: nat, r: CountryRecord)
    requires codeEnd < idEnd && idEnd + 1 + |r.name| < |data|
    requires data[codeEnd + 1..idEnd] == r.id
    requires data[idEnd + 1..idEnd + 1 + |r.name|] == r.name && data[idEnd + 1 + |r.name|] == '\n'
    requires forall k :: 0 <= k < |r.name| ==> r.name[k] != '\n'
    requires r.name == [] || r.name[|r.name| - 1] != '\r'
    ensures StepAfterId(data, r.code, codeEnd, idEnd) == Line(r, idEnd + 1 + |r.name| + 1)
  {
    var nameEnd := idEnd + 1 + |r.name|;
    NameThenBreak(data, idEnd + 1, r.name);
    StepAfterIdFound(data, r.code, codeEnd, idEnd, nameEnd, nameEnd + 1);
  }

  /** A record laid out at `loc` with a line feed after its name scans as exactly that record. */
  lemma StepOnTerminatedParts(data: string, loc: nat, r: CountryRecord)
    requires WellFormed(r)
    requires var codeEnd := loc + |DecimalString(r.code)|;
      var idEnd := codeEnd + 1 + |r.id|;
      && idEnd + 1 + |r.name| < |data|
      && data[loc..codeEnd] == DecimalString(r.code) && data[codeEnd] == ';'
      && data[codeEnd + 1..idEnd] == r.id && data[idEnd] == ';'
      && data[idEnd + 1..idEnd + 1 + |r.name|] == r.name && data[idEnd + 1 + |r.name|] == '\n'
    ensures StepAt(data, loc) == Line(r, loc + |DecimalString(r.code)| + 1 + |r.id| + 1 + |r.name| + 1)
  {
    var codeEnd := loc + |DecimalString(r.code)|;
    var idEnd := codeEnd + 1 + |r.id|;
    TerminatedNameAfterId(data, codeEnd, idEnd, r);
    CodeAndIdFound(data, loc, r.code, r.id);
    StepFromParts(data, loc, codeEnd, idEnd, r.code);
  }

  /** A well-formed line followed by a line feed scans as exactly that record. */
  lemma StepOnTerminatedLine(data: string, loc: nat, r: CountryRecord)
    requires WellFormed(r) && loc + |FormatLine(r)| < |data|
    requires data[loc..loc + |FormatLine(r)|] == FormatLine(r) && data[loc + |FormatLine(r)|] == '\n'
    ensures StepAt(data, loc) == Line(r, loc + |FormatLine(r)| + 1)
  {
    LinePartsAt(data, loc, r);
    StepOnTerminatedParts(data, loc, r);
  }

  /** A record laid out at `loc` whose name runs to the end of the text scans as the unterminated last line. */
  lemma StepOnLastParts(data: string, loc: nat, r: CountryRecord)
    requires WellFormed(r)
    requires var codeEnd := loc + |DecimalString(r.code)|;
      var idEnd := codeEnd + 1 + |r.id|;
      && idEnd + 1 + |r.name| == |data|
      && data[loc..codeEnd] == DecimalString(r.code) && data[codeEnd] == ';'
      && data[codeEnd + 1..idEnd] == r.id && data[idEnd] == ';'
      && data[idEnd + 1..] == r.name
    ensures StepAt(data, loc) == Unterminated(r.code, r.id, |data| - |r.name|)
  {
    var codeEnd := loc + |DecimalString(r.code)|;
    var idEnd := codeEnd + 1 + |r.id|;
    NameToEnd(data, idEnd + 1);
    StepAfterIdMissing(data, r.code, codeEnd, idEnd);
    CodeAndIdFound(data, loc, r.code, r.id);
    StepFromParts(data, loc, codeEnd, idEnd, r.code);
  }

  /** A well-formed line that ends the text scans as the unterminated last line. */
  lemma StepOnLastLine(data: string, loc: nat, r: CountryRecord)
    requires WellFormed(r) && loc + |FormatLine(r)| == |data|
    requires data[loc..] == FormatLine(r)
    ensures StepAt(data, loc) == Unterminated(r.code, r.id, |data| - |r.name|)
    ensures data[|data| - |r.name|..] == r.name
  {
    assert data[loc..loc + |FormatLine(r)|] == FormatLine(r);
    LinePartsAt(data, loc, r);
    StepOnLastParts(data, loc, r);
  }

  /** A pass that reads a line adds its record in front of what the rest of the text yields. */
  lemma ScanLineThenRest(data: string, loc: nat, record: CountryRecord, next: nat)
    requires loc <= |data| && StepAt(data, loc) == Line(record, next)
    ensures ScanFrom(data, loc) == Prepend([record], ScanFrom(data, next))
    ensures ScanFromCorrected(data, loc) == [record] + ScanFromCorrected(data, next)
  {
  }

  /** A text of terminated lines starts with the first record's line and its line feed, followed by the other lines. */
  lemma FormatHead(data: string, loc: nat, rs: seq<CountryRecord>)
    requires loc <= |data| && rs != [] && WellFormedTable(rs) && data[loc..] == Format(rs)
    ensures WellFormed(rs[0]) && WellFormedTable(rs[1..])
    ensures var end := loc + |FormatLine(rs[0])|;
      && end < |data| && data[loc..end] == FormatLine(rs[0]) && data[end] == '\n'
      && data[end + 1..] == Format(rs[1..])
  {
    var line := FormatLine(rs[0]);
    assert WellFormed(rs[0]);
    assert WellFormedTable(rs[1..]) by {
      forall i | 0 <= i < |rs[1..]| ensures WellFormed(rs[1..][i]) {
        assert rs[1..][i] == rs[i + 1];
      }
    }
    assert data[loc..][..|line|] == line;
    assert data[loc..loc + |line|] == line;
    assert data[loc + |line|] == data[loc..][|line|] == '\n';
    assert data[loc + |line| + 1..] == data[loc..][|line| + 1..] == Format(rs[1..]);
  }

  /** Formatting well-formed records as terminated lines and scanning the text gives the records back. */
  lemma {:induction false} LoadFormatted(data: string, loc: nat, rs: seq<CountryRecord>)
    requires loc <= |data| && WellFormedTable(rs) && data[loc..] == Format(rs)
    ensures ScanFrom(data, loc) == Loaded(rs)
    ensures ScanFromCorrected(data, loc) == rs
    decreases rs
  {
    if rs == [] {
      assert loc == |data|;
    } else {
      FormatHead(data, loc, rs);
      assert [rs[0]] + rs[1..] == rs;
      var next := loc + |FormatLine(rs[0])| + 1;
      StepOnTerminatedLine(data, loc, rs[0]);
      ScanLineThenRest(data, loc, rs[0], next);
      LoadFormatted(data, next, rs[1..]);
    }
  }

  /** Reading back a formatted table: `loadCountriesInfo` returns exactly the records written. */
  lemma FormatThenLoad(rs: seq<CountryRecord>)
    requires WellFormedTable(rs)
    ensures ScanFrom(Format(rs), 0) == Loaded(rs)
  {
    LoadFormatted(Format(rs), 0, rs);
  }

  /**
   * As written, a table whose last line has no line break loses the last
   * character of that line's name, and traps when that name is empty.
   */
  lemma AsWrittenLastLineLosesCharacter(r: CountryRecord)
    requires WellFormed(r)
    ensures ScanFrom(FormatLine(r), 0)
         == if r.name == [] then Trapped else Loaded([r.(name := r.name[..|r.name| - 1])])
  {
    var data := FormatLine(r);
    StepOnLastLine(data, 0, r);
    var nameStart := |data| - |r.name|;
    if r.name != [] {
      assert data[nameStart..|data| - 1] == data[nameStart..][..|r.name| - 1];
    }
  }

  /** A text of lines separated by line feeds starts with the first record's line, then a line feed and the other lines if there are any. */
  lemma FormatUnterminatedHead(data: string, loc: nat, rs: seq<CountryRecord>)
    requires loc <= |data| && rs != [] && WellFormedTable(rs) && data[loc..] == FormatUnterminated(rs)
    ensures WellFormed(rs[0])
    ensures |rs| == 1 ==> loc + |FormatLine(rs[0])| == |data| && data[loc..] == FormatLine(rs[0])
    ensures |rs| > 1 ==> WellFormedTable(rs[1..])
    ensures |rs| > 1 ==>
      var end := loc + |FormatLine(rs[0])|;
      && end < |data| && data[loc..end] == FormatLine(rs[0]) && data[end] == '\n'
      && data[end + 1..] == FormatUnterminated(rs[1..])
  {
    var line := FormatLine(rs[0]);
    assert WellFormed(rs[0]);
    if |rs| > 1 {
      assert WellFormedTable(rs[1..]) by {
        forall i | 0 <= i < |rs[1..]| ensures WellFormed(rs[1..][i]) {
          assert rs[1..][i] == rs[i + 1];
        }
      }
      assert data[loc..][..|line|] == line;
      assert data[loc..loc + |line|] == line;
      assert data[loc + |line|] == data[loc..][|line|] == '\n';
      assert data[loc + |line| + 1..] == data[loc..][|line| + 1..] == FormatUnterminated(rs[1..]);
    }
  }

  /** With the last line's name running to the end of the text, every table without a final line break reads back exactly. */
  lemma {:induction false} CorrectedLoadsUnterminated(data: string, loc: nat, rs: seq<CountryRecord>)
    requires rs != [] && loc <= |data| && WellFormedTable(rs) && data[loc..] == FormatUnterminated(rs)
    ensures ScanFromCorrected(data, loc) == rs
    decreases rs
  {
    FormatUnterminatedHead(data, loc, rs);
    if |rs| == 1 {
      StepOnLastLine(data, loc, rs[0]);
    } else {
      assert [rs[0]] + rs[1..] == rs;
      var next := loc + |FormatLine(rs[0])| + 1;
      StepOnTerminatedLine(data, loc, rs[0]);
      ScanLineThenRest(data, loc, rs[0], next);
      CorrectedLoadsUnterminated(data, next, rs[1..]);
    }
  }

  /** The first record with a given code, among `records`. */
  predicate IsFirstForCode(records: seq<CountryRecord>, i: int) {
    0 <= i < |records| && forall j :: 0 <= j < i ==> records[j].code != records[i].code
  }

  /**
   * `countryCodeToIdAndName`: one entry per code, holding the id and name of
   * the first record with that code; later records with the same code are
   * ignored.
   */
  method CountryCodeToIdAndName(records: seq<CountryRecord>) returns (dict: map<int, (string, string)>)
    ensures dict.Keys == set i | 0 <= i < |records| :: records[i].code
    ensures forall i :: IsFirstForCode(records, i) ==> dict[records[i].code] == (records[i].id, records[i].name)
  {
    dict := map[];
    for k := 0 to |records|
      invariant dict.Keys == set i | 0 <= i < k :: records[i].code
      invariant forall i :: 0 <= i < k && IsFirstForCode(records, i) ==> dict[records[i].code] == (records[i].id, records[i].name)
    {
      var record := records[k];
      if record.code !in dict {
        dict := dict[record.code := (record.id, record.name)];
      } else {
        assert !IsFirstForCode(records, k);
      }
    }
  }
}

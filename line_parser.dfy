/**
 * `parse_line`: the groups of the leftmost match of the line pattern, kept
 * only when the directive is `set_name`; the address group is converted with
 * `usize::from_str_radix(_, 16).unwrap()`, so a group the pattern admits but
 * the conversion refuses (a letter beyond `f`, a `|`, more than 64 bits)
 * aborts the run instead of yielding no record.
 */
module LineParser {
  import opened Wrappers
  import opened LinePattern
  import opened RadixHex

  /** The one directive the filter keeps. */
  const SetName: string := "set_name"

  /** What `parse_line` does with one line: no record, a record, or a panic in `unwrap`. */
  datatype Parsed = NoRecord | Record(name: string, address: nat) | Panic(error: IntErrorKind)

  function ParseLine(line: string): (r: Parsed)
    ensures r.NoRecord? <==> Captures(line).None? || Captures(line).value.directive != SetName
    ensures r.Record? ==>
      && Captures(line).Some?
      && var g := Captures(line).value;
      && g.directive == SetName
      && r.name == g.name
      && AllHexDigits(g.digits) && r.address == HexValue(g.digits)
      && r.address < UsizeLimit
    ensures r.Panic? ==>
      && Captures(line).Some?
      && var g := Captures(line).value;
      && g.directive == SetName
      && !(AllHexDigits(g.digits) && HexValue(g.digits) < UsizeLimit)
    ensures r.Record? ==> |r.name| > 0 && forall p :: 0 <= p < |r.name| ==> IsWordChar(r.name[p])
  {
    match Captures(line)
    case None => NoRecord
    case Some(g) =>
      CapturedGroupsInClass(line);
      if g.directive == SetName then
        match FromStrRadix16(g.digits)
        case Ok(address) => Record(g.name, address)
        case Err(e) => Panic(e)
      else NoRecord
  }

  /**
   * The record `parse_line` yields is read off the leftmost match of the line:
   * when the pattern matches first at `start`, cut as b says, with directive
   * `set_name`, the line yields exactly the name group and the value of the
   * address group, or aborts when that group is not a 64-bit hex number.
   */
  lemma ParseLineOfLeftmostMatch(line: string, start: nat, b: Bounds)
    requires IsLeftmost(line, start, b)
    ensures var g := GroupsOf(line, start, b);
      && (g.directive != SetName ==> ParseLine(line) == NoRecord)
      && (g.directive == SetName && AllHexDigits(g.digits) && HexValue(g.digits) < UsizeLimit ==>
            ParseLine(line) == Record(g.name, HexValue(g.digits)))
      && (g.directive == SetName && !(AllHexDigits(g.digits) && HexValue(g.digits) < UsizeLimit) ==>
            ParseLine(line).Panic?)
  {
    LeftmostIsReported(line, start, b);
  }

  /** A line on which the pattern matches nowhere yields no record. */
  lemma ParseLineWithoutMatch(line: string)
    requires forall j: nat :: j <= |line| ==> NoMatchAt(line, j)
    ensures ParseLine(line) == NoRecord
  {
    CapturesExactlyWhenMatched(line);
  }

  /**
   * A line in the shape the pattern describes, `directive (0<mark><digits>, "<name>")`,
   * yields a record exactly for the directive `set_name` and a 64-bit hex
   * address, aborts for `set_name` with any other address text, and yields
   * nothing for any other directive.
   */
  lemma ParsesPatternLine(directive: string, mark: char, digits: string, name: string)
    requires |directive| > 0 && forall p :: 0 <= p < |directive| ==> IsWordChar(directive[p])
    requires IsRadixMark(mark)
    requires |digits| > 0 && forall p :: 0 <= p < |digits| ==> IsDigitClassChar(digits[p])
    requires |name| > 0 && forall p :: 0 <= p < |name| ==> IsWordChar(name[p])
    ensures directive != SetName ==> ParseLine(PatternLine(directive, mark, digits, name)) == NoRecord
    ensures directive == SetName && AllHexDigits(digits) && HexValue(digits) < UsizeLimit ==>
      ParseLine(PatternLine(directive, mark, digits, name)) == Record(name, HexValue(digits))
    ensures directive == SetName && !(AllHexDigits(digits) && HexValue(digits) < UsizeLimit) ==>
      ParseLine(PatternLine(directive, mark, digits, name)).Panic?
  {
    PatternLineCaptures(directive, mark, digits, name);
  }

  /** `set_name (0x401000, "_main")` yields the record `("_main", 0x401000)`. */
  lemma ParsesMainSymbol()
    ensures ParseLine(PatternLine("set_name", 'x', "401000", "_main")) == Record("_main", 0x401000)
  {
    MainSymbolAddress();
    ParsesPatternLine("set_name", 'x', "401000", "_main");
  }

  /** The address group `401000` is the number 0x401000. */
  lemma MainSymbolAddress()
    ensures AllHexDigits("401000") && HexValue("401000") == 0x401000
  {
    HexValueAppend("", '4');
    assert [] + ['4'] == "4";
    HexValueAppend("4", '0');
    assert "4" + ['0'] == "40";
    HexValueAppend("40", '1');
    assert "40" + ['1'] == "401";
    HexValueAppend("401", '0');
    assert "401" + ['0'] == "4010";
    HexValueAppend("4010", '0');
    assert "4010" + ['0'] == "40100";
    HexValueAppend("40100", '0');
    assert "40100" + ['0'] == "401000";
  }

  /** `set_name (0x1, "foo")` yields the record `("foo", 1)`. */
  lemma ParsesFooSymbol()
    ensures ParseLine(PatternLine("set_name", 'x', "1", "foo")) == Record("foo", 1)
  {
    HexValueAppend("", '1');
    assert [] + ['1'] == "1";
    ParsesPatternLine("set_name", 'x', "1", "foo");
  }

  /** `rename (0x500, "x")` has another directive and yields no record. */
  lemma IgnoresOtherDirective()
    ensures ParseLine(PatternLine("rename", 'x', "500", "x")) == NoRecord
  {
    ParsesPatternLine("rename", 'x', "500", "x");
  }

  /**
   * The match starts at the first word character, so in `xset_name (0x1, "a")`
   * the directive is `xset_name`, not the `set_name` inside it, and nothing is yielded.
   */
  lemma LeftmostStartDecides()
    ensures ParseLine(PatternLine("xset_name", 'x', "1", "a")) == NoRecord
  {
    ParsesPatternLine("xset_name", 'x', "1", "a");
  }

  /** The digit class admits `Z`, so `0xZZ` passes the pattern and then aborts the run. */
  lemma NonHexLetterAborts()
    ensures ParseLine(PatternLine("set_name", 'x', "ZZ", "a")).Panic?
  {
    assert !IsHexDigit("ZZ"[0]);
    ParsesPatternLine("set_name", 'x', "ZZ", "a");
  }

  /** The digit class admits `|`, so `0x1|2` passes the pattern and then aborts the run. */
  lemma PipeDigitAborts()
    ensures ParseLine(PatternLine("set_name", 'x', "1|2", "a")).Panic?
  {
    assert !IsHexDigit("1|2"[1]);
    ParsesPatternLine("set_name", 'x', "1|2", "a");
  }

  /** The radix mark class admits `|`, so `0|1` is read as address 1. */
  lemma PipeRadixMarkAccepted()
    ensures ParseLine(PatternLine("set_name", '|', "1", "a")) == Record("a", 1)
  {
    HexValueAppend("", '1');
    assert [] + ['1'] == "1";
    ParsesPatternLine("set_name", '|', "1", "a");
  }
}

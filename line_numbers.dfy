/**
 * `calculateLinesToHighlight` of the code block's line numbers: the range string written after a
 * code fence (`1,3-5`) becomes a predicate on zero-based line indices.
 */
module LineNumbers {
  import opened Wrappers
  import opened Strings

  /** A JavaScript number as `parseInt` produces it: `NaN` or an integer. */
  datatype Number = NaN | Num(value: int)

  /** One comma-separated entry: its first `-`-separated part and its second, absent when the
      entry has no `-`. */
  datatype Entry = Entry(start: Number, end: Option<Number>)

  function DigitValue(c: char): nat
    requires IsDigit(c)
  {
    c as int - '0' as int
  }

  function DigitChar(d: nat): (c: char)
    requires d < 10
    ensures IsDigit(c) && DigitValue(c) == d
  {
    ('0' as int + d) as char
  }

  /** The value of a run of decimal digits, most significant first. */
  function DecimalValue(digits: string): nat
    requires forall i :: 0 <= i < |digits| ==> IsDigit(digits[i])
  {
    if digits == [] then 0
    else 10 * DecimalValue(digits[..|digits| - 1]) + DigitValue(digits[|digits| - 1])
  }

  /** The decimal numeral of `n`, without leading zeros: `String(n)`. */
  function Numeral(n: nat): (s: string)
    ensures s != [] && forall i :: 0 <= i < |s| ==> IsDigit(s[i])
  {
    if n < 10 then [DigitChar(n)] else Numeral(n / 10) + [DigitChar(n % 10)]
  }

  /** `parseInt(s, 10)`: leading white space is skipped, one optional sign is read, then the longest
      run of decimal digits; without a digit the result is `NaN`. Whatever follows the digits is
      ignored. */
  function ParseInt(s: string): Number
  {
    var t := TrimLeadingWhitespace(s);
    var negative := t != [] && t[0] == '-';
    var body := if t != [] && (t[0] == '-' || t[0] == '+') then t[1..] else t;
    var n := DigitRun(body);
    if n == 0 then NaN
    else
      var magnitude: int := DecimalValue(body[..n]);
      Num(if negative then -magnitude else magnitude)
  }

  /** The numeral of a natural number reads back as that number. */
  lemma {:induction false} DecimalValueOfNumeral(n: nat)
    ensures DecimalValue(Numeral(n)) == n
  {
    if n >= 10 {
      DecimalValueOfNumeral(n / 10);
      var s := Numeral(n);
      assert s[..|s| - 1] == Numeral(n / 10);
    }
  }

  /** A run of digits followed by anything that is not a digit parses to the run's value. */
  lemma {:induction false} ParseDigitsThenRest(digits: string, rest: string)
    requires digits != [] && forall i :: 0 <= i < |digits| ==> IsDigit(digits[i])
    requires rest == [] || !IsDigit(rest[0])
    ensures ParseInt(digits + rest) == Num(DecimalValue(digits))
  {
    var s := digits + rest;
    assert IsDigit(s[0]);
    assert TrimLeadingWhitespace(s) == s;
    DigitRunOfDigits(digits, rest);
    assert s[..|digits|] == digits;
    DigitsParse(s, |digits|);
  }

  /** An unsigned string whose digit run has length `n > 0` parses to the run's value. */
  lemma DigitsParse(s: string, n: nat)
    requires s != [] && IsDigit(s[0]) && TrimLeadingWhitespace(s) == s && DigitRun(s) == n
    ensures ParseInt(s) == Num(DecimalValue(s[..n]))
  {
  }

  lemma {:induction false} DigitRunOfDigits(digits: string, rest: string)
    requires forall i :: 0 <= i < |digits| ==> IsDigit(digits[i])
    requires rest == [] || !IsDigit(rest[0])
    ensures DigitRun(digits + rest) == |digits|
    decreases |digits|
  {
    if digits == [] {
      assert digits + rest == rest;
    } else {
      assert (digits + rest)[1..] == digits[1..] + rest;
      DigitRunOfDigits(digits[1..], rest);
    }
  }

  /** `parseInt(String(n), 10) === n` for every natural number `n`. */
  lemma ParseNumeral(n: nat)
    ensures ParseInt(Numeral(n)) == Num(n)
  {
    ParseDigitsThenRest(Numeral(n), []);
    assert Numeral(n) + [] == Numeral(n);
    DecimalValueOfNumeral(n);
  }

  /** `value.split('-').map((y) => parseInt(y, 10))`, destructured as `[start, end]`. */
  function ParseEntry(value: string): (e: Entry)
    ensures e.start == ParseInt(Split(value, '-')[0])
    ensures e.end.Some? <==> '-' in value
  {
    var parts := Split(value, '-');
    SeveralPartsIffSeparator(value, '-');
    Entry(ParseInt(parts[0]), if |parts| >= 2 then Some(ParseInt(parts[1])) else None)
  }

  lemma {:induction false} SeveralPartsIffSeparator(s: string, sep: char)
    ensures |Split(s, sep)| >= 2 <==> sep in s
    decreases |s|
  {
    if sep !in s {
      SplitWithoutSeparator(s, sep);
    } else if s[0] != sep {
      assert sep in s[1..] by {
        var i :| 0 <= i < |s| && s[i] == sep;
        assert s[1..][i - 1] == sep;
      }
      SeveralPartsIffSeparator(s[1..], sep);
    }
  }

  function ParseEntries(values: seq<string>): (r: seq<Entry>)
    ensures |r| == |values|
    ensures forall i :: 0 <= i < |values| ==> r[i] == ParseEntry(values[i])
  {
    if values == [] then [] else [ParseEntry(values[0])] + ParseEntries(values[1..])
  }

  /** JavaScript truthiness of `end`: `undefined`, `NaN` and zero are false. */
  predicate Truthy(end: Option<Number>)
  {
    end.Some? && end.value.Num? && end.value.value != 0
  }

  /** The test inside `some`: with a truthy `end` an inclusive range, otherwise equality with
      `start`. A `NaN` bound makes every comparison false. */
  predicate Matches(e: Entry, lineNumber: int)
  {
    if Truthy(e.end) then e.start.Num? && e.start.value <= lineNumber <= e.end.value.value
    else e.start == Num(lineNumber)
  }

  /** `entries.some(...)` */
  predicate AnyMatches(entries: seq<Entry>, lineNumber: int)
  {
    entries != [] && (Matches(entries[0], lineNumber) || AnyMatches(entries[1..], lineNumber))
  }

  lemma {:induction false} AnyMatchesSpec(entries: seq<Entry>, lineNumber: int)
    ensures AnyMatches(entries, lineNumber) <==> exists k :: 0 <= k < |entries| && Matches(entries[k], lineNumber)
    decreases |entries|
  {
    if entries != [] {
      AnyMatchesSpec(entries[1..], lineNumber);
      if AnyMatches(entries[1..], lineNumber) {
        var k :| 0 <= k < |entries| - 1 && Matches(entries[1..][k], lineNumber);
        assert Matches(entries[k + 1], lineNumber);
      }
      if exists k :: 0 <= k < |entries| && Matches(entries[k], lineNumber) {
        var k :| 0 <= k < |entries| && Matches(entries[k], lineNumber);
        if k > 0 { assert Matches(entries[1..][k - 1], lineNumber); }
      }
    }
  }

  lemma {:induction false} AnyMatchesConcat(a: seq<Entry>, b: seq<Entry>, lineNumber: int)
    ensures AnyMatches(a + b, lineNumber) <==> AnyMatches(a, lineNumber) || AnyMatches(b, lineNumber)
    decreases |a|
  {
    if a != [] {
      assert (a + b)[0] == a[0] && (a + b)[1..] == a[1..] + b;
      AnyMatchesConcat(a[1..], b, lineNumber);
    } else {
      assert a + b == b;
    }
  }

  /** The entries of a range string: `ranges.split(',')`, each parsed. */
  function EntriesOf(ranges: string): seq<Entry>
  {
    ParseEntries(Split(ranges, ','))
  }

  /** `calculateLinesToHighlight(ranges)`: the returned function tells whether the line at a
      zero-based index is highlighted. */
  function CalculateLinesToHighlight(ranges: Option<string>): (shouldHighlight: int -> bool)
    ensures ranges == None || ranges == Some([]) ==> forall index :: !shouldHighlight(index)
  {
    if ranges == None || ranges == Some([]) then (index: int) => false
    else
      var entries := EntriesOf(ranges.value);
      (index: int) => AnyMatches(entries, index + 1)
  }

  /** What the returned function answers for a present range string. */
  lemma Applied(ranges: string, index: int)
    ensures CalculateLinesToHighlight(Some(ranges))(index) == (ranges != [] && AnyMatches(EntriesOf(ranges), index + 1))
  {
  }

  lemma {:induction false} ParseEntriesConcat(a: seq<string>, b: seq<string>)
    ensures ParseEntries(a + b) == ParseEntries(a) + ParseEntries(b)
  {
  }

  /** The empty string highlights nothing, both as an argument and as one entry of a list. */
  lemma EmptyEntryMatchesNothing(lineNumber: int)
    ensures !AnyMatches(EntriesOf([]), lineNumber)
  {
    assert Split([], ',') == [[]];
    assert Split([], '-') == [[]];
    assert TrimLeadingWhitespace([]) == [];
  }

  /** Outside the empty cases, a line is highlighted exactly when some entry matches its
      one-based number. */
  lemma HighlightedIffSomeEntryMatches(ranges: string, index: int)
    ensures CalculateLinesToHighlight(Some(ranges))(index) <==>
      exists k :: 0 <= k < |EntriesOf(ranges)| && Matches(EntriesOf(ranges)[k], index + 1)
  {
    Applied(ranges, index);
    AnyMatchesSpec(EntriesOf(ranges), index + 1);
    if ranges == [] {
      EmptyEntryMatchesNothing(index + 1);
    }
  }

  /** A comma-separated list highlights the union of what its two halves highlight. */
  lemma {:induction false} HighlightUnion(a: string, b: string, index: int)
    ensures CalculateLinesToHighlight(Some(a + "," + b))(index) <==>
      CalculateLinesToHighlight(Some(a))(index) || CalculateLinesToHighlight(Some(b))(index)
  {
    assert a + "," + b == a + [','] + b;
    SplitConcat(a, b, ',');
    ParseEntriesConcat(Split(a, ','), Split(b, ','));
    AnyMatchesConcat(EntriesOf(a), EntriesOf(b), index + 1);
    Applied(a + "," + b, index);
    Applied(a, index);
    Applied(b, index);
    if a == [] { EmptyEntryMatchesNothing(index + 1); }
    if b == [] { EmptyEntryMatchesNothing(index + 1); }
  }

  /** `"n"` highlights the line numbered `n` and no other. */
  lemma SingleLine(n: nat, index: int)
    ensures CalculateLinesToHighlight(Some(Numeral(n)))(index) <==> index + 1 == n
  {
    var s := Numeral(n);
    assert '-' !in s by {
      forall i | 0 <= i < |s| ensures s[i] != '-' { assert IsDigit(s[i]); }
    }
    assert ',' !in s by {
      forall i | 0 <= i < |s| ensures s[i] != ',' { assert IsDigit(s[i]); }
    }
    SplitWithoutSeparator(s, ',');
    SplitWithoutSeparator(s, '-');
    ParseNumeral(n);
    assert EntriesOf(s) == [Entry(Num(n), None)];
    Applied(s, index);
  }

  /** Two parts free of `-` and `,` joined by `-` form a single entry. */
  lemma TwoPartEntry(x: string, y: string)
    requires '-' !in x && '-' !in y && ',' !in x && ',' !in y
    ensures EntriesOf(x + "-" + y) == [Entry(ParseInt(x), Some(ParseInt(y)))]
  {
    var s := x + "-" + y;
    assert s == x + ['-'] + y;
    assert ',' !in s by {
      forall i | 0 <= i < |s| ensures s[i] != ',' {
        if i < |x| { assert s[i] == x[i]; }
        else if i > |x| { assert s[i] == y[i - |x| - 1]; }
      }
    }
    SplitWithoutSeparator(s, ',');
    SplitConcat(x, y, '-');
    SplitWithoutSeparator(x, '-');
    SplitWithoutSeparator(y, '-');
    assert s[|x|] == '-';
  }

  /** `"a-b"` parses to one entry from `a` to `b`. */
  lemma RangeEntry(a: nat, b: nat)
    ensures EntriesOf(Numeral(a) + "-" + Numeral(b)) == [Entry(Num(a), Some(Num(b)))]
  {
    NoSeparatorInNumeral(a, ',');
    NoSeparatorInNumeral(b, ',');
    NoSeparatorInNumeral(a, '-');
    NoSeparatorInNumeral(b, '-');
    TwoPartEntry(Numeral(a), Numeral(b));
    ParseNumeral(a);
    ParseNumeral(b);
  }

  /** `"a-b"` highlights the lines numbered `a` to `b` inclusive, none when `a > b`; an end of zero
      is falsy and leaves only the line numbered `a`. */
  lemma LineRange(a: nat, b: nat, index: int)
    ensures b != 0 ==> (CalculateLinesToHighlight(Some(Numeral(a) + "-" + Numeral(b)))(index) <==> a <= index + 1 <= b)
    ensures b == 0 ==> (CalculateLinesToHighlight(Some(Numeral(a) + "-" + Numeral(b)))(index) <==> index + 1 == a)
  {
    RangeEntry(a, b);
    Applied(Numeral(a) + "-" + Numeral(b), index);
  }

  /** `"a-y"` whose end `y` parses to `NaN` (`"3-x"`) highlights only the line numbered `a`:
      `NaN` is falsy, so the entry tests its start alone. */
  lemma NaNEndEntry(a: nat, y: string, index: int)
    requires '-' !in y && ',' !in y && ParseInt(y) == NaN
    ensures CalculateLinesToHighlight(Some(Numeral(a) + "-" + y))(index) <==> index + 1 == a
  {
    NoSeparatorInNumeral(a, ',');
    NoSeparatorInNumeral(a, '-');
    TwoPartEntry(Numeral(a), y);
    ParseNumeral(a);
    OneEntry(Numeral(a) + "-" + y, Entry(Num(a), Some(NaN)), index);
  }

  /** A range string that parses to a single entry highlights what that entry matches. */
  lemma OneEntry(ranges: string, e: Entry, index: int)
    requires ranges != [] && EntriesOf(ranges) == [e]
    ensures CalculateLinesToHighlight(Some(ranges))(index) <==> Matches(e, index + 1)
  {
    Applied(ranges, index);
    assert [e][1..] == [];
  }

  /** An open-ended entry `"a-"` highlights only the line numbered `a`. */
  lemma OpenEndedEntry(a: nat, index: int)
    ensures CalculateLinesToHighlight(Some(Numeral(a) + "-"))(index) <==> index + 1 == a
  {
    assert Numeral(a) + "-" == Numeral(a) + "-" + "";
    assert ParseInt("") == NaN by { assert TrimLeadingWhitespace("") == ""; }
    NaNEndEntry(a, "", index);
  }

  lemma NoSeparatorInNumeral(n: nat, sep: char)
    requires !IsDigit(sep)
    ensures sep !in Numeral(n)
  {
    var s := Numeral(n);
    forall i | 0 <= i < |s| ensures s[i] != sep { assert IsDigit(s[i]); }
  }
}

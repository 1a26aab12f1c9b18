/** The go-to-line input: a validator that accepts an integer line number
    within bounds, and the placeholder that describes the accepted range.
    Python's int() is modelled on ASCII: optional surrounding whitespace, an
    optional sign, and decimal digits with single underscores between them. */
module GotoInput {
  import opened TextUtil

  const DefaultMinLine: int := 1
  const NotALineNumber: string := "Not a valid line number."

  predicate IsDigit(c: char)
  {
    '0' <= c <= '9'
  }

  /** A digit string as int() accepts it: digits, with single underscores
      only between two digits. */
  predicate WellFormedDigits(d: string)
  {
    |d| > 0 && IsDigit(d[0]) && IsDigit(d[|d| - 1])
    && (forall i :: 0 <= i < |d| ==> IsDigit(d[i]) || d[i] == '_')
    && (forall i :: 0 <= i < |d| - 1 && d[i] == '_' ==> d[i + 1] != '_')
  }

  /** The digits of d without its underscores. */
  function DropUnderscores(d: string): (r: string)
    ensures |r| <= |d|
    ensures (forall i :: 0 <= i < |d| ==> IsDigit(d[i]) || d[i] == '_') ==> forall i :: 0 <= i < |r| ==> IsDigit(r[i])
  {
    if d == [] then ""
    else if d[|d| - 1] == '_' then DropUnderscores(d[..|d| - 1])
    else DropUnderscores(d[..|d| - 1]) + [d[|d| - 1]]
  }

  /** The decimal value of a string of digits. */
  function Value(d: string): nat
    requires forall i :: 0 <= i < |d| ==> IsDigit(d[i])
  {
    if d == [] then 0
    else
      var c := d[|d| - 1];
      assert IsDigit(c);
      Value(d[..|d| - 1]) * 10 + (c as int - '0' as int)
  }

  /** Python's str.strip(). */
  function Strip(s: string): string
  {
    RStrip(LStrip(s))
  }

  /** An unsigned digit string's value, or None when int() rejects it. */
  function ParseUnsigned(body: string): (r: Option<nat>)
    ensures r.Some? <==> WellFormedDigits(body)
  {
    if WellFormedDigits(body) then Some(Value(DropUnderscores(body))) else None
  }

  /** int() on an already stripped string: an optional sign, then digits. */
  function ParseStripped(t: string): (r: Option<int>)
  {
    if t == [] then None
    else if t[0] == '-' then
      (match ParseUnsigned(t[1..]) case None => None case Some(n) => Some(0 - n))
    else if t[0] == '+' then
      (match ParseUnsigned(t[1..]) case None => None case Some(n) => Some(n))
    else
      (match ParseUnsigned(t) case None => None case Some(n) => Some(n))
  }

  /** The syntax int() accepts once the surrounding whitespace is stripped:
      an optional sign, then well-formed digits. */
  predicate IntSyntax(t: string)
  {
    t != [] && (if t[0] == '-' || t[0] == '+' then WellFormedDigits(t[1..]) else WellFormedDigits(t))
  }

  /** int(value), or None where int() raises: a value exactly for the accepted
      syntax, negative only after a minus sign. */
  function ParseInt(s: string): (r: Option<int>)
    ensures r.Some? <==> IntSyntax(Strip(s))
    ensures r.Some? && r.value < 0 ==> Strip(s)[0] == '-'
    ensures r.Some? && Strip(s)[0] == '-' ==> r.value <= 0
  {
    ParseStripped(Strip(s))
  }

  function DigitChar(d: nat): (c: char)
    requires d < 10
    ensures IsDigit(c) && c as int - '0' as int == d
  {
    ('0' as int + d) as char
  }

  /** str(n) for a natural number. */
  function NatToString(n: nat): (r: string)
    ensures |r| > 0
    ensures forall i :: 0 <= i < |r| ==> IsDigit(r[i])
  {
    if n < 10 then [DigitChar(n)] else NatToString(n / 10) + [DigitChar(n % 10)]
  }

  /** str(i) for an integer. */
  function IntToString(i: int): string
  {
    if i < 0 then "-" + NatToString(-i) else NatToString(i)
  }

  /** A digit string has no underscores to drop. */
  lemma {:induction false} DropUnderscoresOfDigits(d: string)
    requires forall i :: 0 <= i < |d| ==> IsDigit(d[i])
    ensures DropUnderscores(d) == d
  {
    if d != [] {
      DropUnderscoresOfDigits(d[..|d| - 1]);
      assert d[..|d| - 1] + [d[|d| - 1]] == d;
    }
  }

  /** The value of the decimal form of n is n. */
  lemma {:induction false} ValueOfNatToString(n: nat)
    ensures Value(NatToString(n)) == n
  {
    if n >= 10 {
      ValueOfNatToString(n / 10);
      var s := NatToString(n / 10) + [DigitChar(n % 10)];
      assert s[..|s| - 1] == NatToString(n / 10);
    }
  }

  /** A string that starts and ends with a non-whitespace character is its own strip(). */
  lemma StripOfTrimmed(s: string)
    requires |s| > 0 && !IsSpace(s[0]) && !IsSpace(s[|s| - 1])
    ensures Strip(s) == s
  {
    LeadingUnique(s, 0);
  }

  /** A plain digit string parses to its value. */
  lemma ParseUnsignedDigits(d: string)
    requires |d| > 0 && forall i :: 0 <= i < |d| ==> IsDigit(d[i])
    ensures ParseUnsigned(d) == Some(Value(d))
  {
    assert WellFormedDigits(d);
    DropUnderscoresOfDigits(d);
  }

  lemma ParseStrippedDigits(d: string)
    requires |d| > 0 && forall i :: 0 <= i < |d| ==> IsDigit(d[i])
    ensures ParseStripped(d) == Some(Value(d) as int)
  {
    ParseUnsignedDigits(d);
    assert IsDigit(d[0]);
  }

  lemma ParseStrippedNegative(t: string, d: string)
    requires |d| > 0 && forall i :: 0 <= i < |d| ==> IsDigit(d[i])
    requires |t| > 0 && t[0] == '-' && t[1..] == d
    ensures ParseStripped(t) == Some(0 - Value(d))
  {
    ParseUnsignedDigits(d);
  }

  /** int() reads back every integer from its decimal form. */
  lemma ParseIntOfIntToString(i: int)
    ensures ParseInt(IntToString(i)) == Some(i)
  {
    DecimalFormParses(i);
  }

  /** The decimal form of i has no surrounding whitespace, and reads back as i. */
  lemma DecimalFormParses(i: int)
    ensures Strip(IntToString(i)) == IntToString(i)
    ensures ParseStripped(IntToString(i)) == Some(i)
  {
    var n: nat := if i < 0 then -i else i;
    var d := NatToString(n);
    var s := IntToString(i);
    assert !IsSpace(s[0]) && s[|s| - 1] == d[|d| - 1];
    StripOfTrimmed(s);
    ValueOfNatToString(n);
    if i < 0 {
      ParseStrippedNegative(s, d);
    } else {
      ParseStrippedDigits(d);
    }
  }

  /** GotoLineValidator: its bounds (the minimum defaults to DefaultMinLine). */
  datatype GotoLineValidator = GotoLineValidator(maxLine: int, minLine: int)

  function NewGotoLineValidator(maxLine: int): (v: GotoLineValidator)
    ensures v.maxLine == maxLine && v.minLine == DefaultMinLine
  {
    GotoLineValidator(maxLine, DefaultMinLine)
  }

  /** Validation: a value that is not an integer fails first, then one below
      the minimum, then one above the maximum; all else succeeds. */
  function Validate(v: GotoLineValidator, value: string): (r: Validation)
    ensures r.Success? <==> ParseInt(value).Some? && v.minLine <= ParseInt(value).value <= v.maxLine
    ensures ParseInt(value).None? ==> r == Failure(NotALineNumber)
    ensures ParseInt(value).Some? && ParseInt(value).value < v.minLine ==>
              r == Failure("Line number must be >= " + IntToString(v.minLine))
    ensures ParseInt(value).Some? && v.minLine <= ParseInt(value).value && ParseInt(value).value > v.maxLine ==>
              r == Failure("Line number must be <= " + IntToString(v.maxLine))
  {
    match ParseInt(value)
    case None => Failure(NotALineNumber)
    case Some(lno) =>
      if lno < v.minLine then Failure("Line number must be >= " + IntToString(v.minLine))
      else if lno > v.maxLine then Failure("Line number must be <= " + IntToString(v.maxLine))
      else Success
  }

  /** A typed line number is accepted exactly when it lies within the bounds. */
  lemma ValidateLineNumber(v: GotoLineValidator, lno: int)
    ensures Validate(v, IntToString(lno)).Success? <==> v.minLine <= lno <= v.maxLine
  {
    ParseIntOfIntToString(lno);
  }

  /** The accepted range and how to cancel. */
  function Instructions(minLine: int, maxLine: int): string
  {
    "Enter a line number between " + IntToString(minLine) + " and " + IntToString(maxLine) + ". ESC to cancel."
  }

  /** The mention of the current line, empty when there is none. */
  function CurrentLineText(currentLine: Option<int>): string
  {
    if currentLine.Some? then "Current line: " + IntToString(currentLine.value) + ". " else ""
  }

  /** The input's placeholder: the current line when one is given, then the
      accepted range and how to cancel, which it always ends with. */
  function Placeholder(currentLine: Option<int>, minLine: int, maxLine: int): (r: string)
    ensures EndsWith(r, Instructions(minLine, maxLine))
    ensures currentLine.None? ==> r == Instructions(minLine, maxLine)
    ensures currentLine.Some? ==> StartsWith(r, "Current line: " + IntToString(currentLine.value) + ". ")
  {
    var head := CurrentLineText(currentLine);
    ConcatEnds(head, Instructions(minLine, maxLine));
    head + Instructions(minLine, maxLine)
  }

  lemma ConcatEnds(a: string, b: string)
    ensures StartsWith(a + b, a) && EndsWith(a + b, b)
  {
    assert (a + b)[..|a|] == a;
    assert (a + b)[|a + b| - |b|..] == b;
  }

  lemma StartsWithTrans(s: string, p: string, q: string)
    requires StartsWith(s, p) && StartsWith(p, q)
    ensures StartsWith(s, q)
  {
    assert s[..|q|] == s[..|p|][..|q|];
  }

  lemma NotStartsWith(s: string, p: string)
    requires |s| > 0 && |p| > 0 && s[0] != p[0]
    ensures !StartsWith(s, p)
  {
    assert |p| <= |s| ==> s[..|p|][0] == s[0];
  }

  /** The placeholder names the current line exactly when one is given. */
  lemma PlaceholderNamesCurrentLine(currentLine: Option<int>, minLine: int, maxLine: int)
    ensures StartsWith(Placeholder(currentLine, minLine, maxLine), "Current line: ") <==> currentLine.Some?
  {
    var head := CurrentLineText(currentLine);
    var tail := Instructions(minLine, maxLine);
    if currentLine.Some? {
      ConcatEnds(head, tail);
      ConcatEnds("Current line: ", IntToString(currentLine.value) + ". ");
      assert head == "Current line: " + (IntToString(currentLine.value) + ". ");
      StartsWithTrans(head + tail, head, "Current line: ");
    } else {
      assert head + tail == tail;
      assert tail[0] == 'E';
      NotStartsWith(tail, "Current line: ");
    }
  }
}
